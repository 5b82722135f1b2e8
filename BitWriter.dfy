/**
 * BitWriter: writing values into the front of a span. Every writer splits the
 * span, writes the left part and hands back the right part in place of the
 * span it was given (the `ref` parameter). A failed split throws before any
 * byte changes.
 */
module BitWriter {
  import opened Bitwise
  import opened BitString
  import opened Outcomes
  import opened IntTypes
  import opened Codec
  import BS = BitSpan

  /**
   * `WriteBinary<T>(ref span, value, numBits)`: the low numBits bits of value
   * replace the span's first numBits bits and the span advances past them;
   * a range error, with the buffer untouched, unless 0 <= numBits <= Length.
   */
  method WriteBinary(buf: array<byte>, span: BS.Span, t: IntType, value: nat, numBits: int)
    returns (r: Result<BS.Span>)
    requires span.Valid() && span.Within(buf.Length) && numBits <= t.Width() && t.IsPattern(value)
    modifies buf
    ensures r.Ok? <==> 0 <= numBits <= span.length
    ensures r.Err? ==> r.error == ArgumentOutOfRange && buf[..] == old(buf[..])
    ensures r.Ok? ==> && Written(buf[..], old(buf[..]), span.Pos(), numBits, value)
                      && Advanced(span, numBits, r.value)
  {
    var halves := BS.Split(span, numBits);
    if halves.Err? {
      return Err(halves.error);
    }
    var valueBits, outBits := halves.value.left, halves.value.right;
    BS.Write(buf, valueBits, t, value);
    return Ok(outBits);
  }

  /**
   * `WriteInteger<T>(ref span, value, numBits)`, which the variable-width
   * writers `WriteInt8(ref span, value, numBits)` ... call unchanged: the low
   * numBits bits of the value's two's complement pattern. There is no
   * [1, width] check; only the split's 0 <= numBits <= Length applies.
   */
  method WriteInteger(buf: array<byte>, span: BS.Span, t: IntType, x: int, numBits: int)
    returns (r: Result<BS.Span>)
    requires span.Valid() && span.Within(buf.Length) && numBits <= t.Width() && t.InRange(x)
    modifies buf
    ensures r.Ok? <==> 0 <= numBits <= span.length
    ensures r.Err? ==> r.error == ArgumentOutOfRange && buf[..] == old(buf[..])
    ensures r.Ok? ==> && Written(buf[..], old(buf[..]), span.Pos(), numBits, ToBits(t, x))
                      && Advanced(span, numBits, r.value)
  {
    r := WriteBinary(buf, span, t, ToBits(t, x), numBits);
  }

  /** `WriteInt8(ref span, value)` ... `WriteUInt64(ref span, value)`: all sizeof(T) * 8 bits. */
  method WriteFixed(buf: array<byte>, span: BS.Span, t: IntType, x: int)
    returns (r: Result<BS.Span>)
    requires span.Valid() && span.Within(buf.Length) && t.InRange(x)
    modifies buf
    ensures r.Ok? <==> t.Width() <= span.length
    ensures r.Err? ==> r.error == ArgumentOutOfRange && buf[..] == old(buf[..])
    ensures r.Ok? ==> && Written(buf[..], old(buf[..]), span.Pos(), t.Width(), ToBits(t, x))
                      && Advanced(span, t.Width(), r.value)
  {
    r := WriteInteger(buf, span, t, x, t.Width());
  }

  /** `WriteBool(ref span, value)`: the byte 1 or 0 written as one bit. */
  method WriteBool(buf: array<byte>, span: BS.Span, b: bool) returns (r: Result<BS.Span>)
    requires span.Valid() && span.Within(buf.Length)
    modifies buf
    ensures r.Ok? <==> 1 <= span.length
    ensures r.Err? ==> r.error == ArgumentOutOfRange && buf[..] == old(buf[..])
    ensures r.Ok? ==> && Written(buf[..], old(buf[..]), span.Pos(), 1, if b then 1 else 0)
                      && Advanced(span, 1, r.value)
  {
    r := WriteBinary(buf, span, UInt8, if b then 1 else 0, 1);
  }

  /** The low n bits of each element, in order. */
  function Truncated(a: seq<nat>, n: nat): (r: seq<nat>)
    ensures |r| == |a|
    ensures forall k | 0 <= k < |a| :: r[k] < Pow2(n)
  {
    if |a| == 0 then [] else Truncated(a[..|a| - 1], n) + [a[|a| - 1] % Pow2(n)]
  }

  /** Elements that already fit in n bits are not changed by truncation. */
  lemma {:induction false} TruncatedSmall(a: seq<nat>, n: nat)
    requires forall k | 0 <= k < |a| :: a[k] < Pow2(n)
    ensures Truncated(a, n) == a
  {
    if |a| > 0 {
      TruncatedSmall(a[..|a| - 1], n);
      ModOfSmall(a[|a| - 1], Pow2(n));
      assert a[..|a| - 1] + [a[|a| - 1]] == a;
    }
  }

  /**
   * The buffer s' after the first `done` elements of a were written one after
   * another from bit pos, numBits bits each: read back as items they are the
   * elements truncated to numBits bits, and every bit outside those items is
   * as it was in s.
   */
  ghost predicate ItemsWritten(s': seq<byte>, s: seq<byte>, pos: nat, n: nat, a: seq<nat>, done: nat)
  {
    && |s'| == |s| && done <= |a|
    && pos + done * n <= 8 * |s|
    && Items(s', pos, n, done) == Truncated(a[..done], n)
    && forall c | 0 <= c < 8 * |s| && !(pos <= c < pos + done * n) :: BitAt(s', c) == BitAt(s, c)
  }

  /**
   * `WriteArray(ref span, array, numBitsPerElement)`: each element in index
   * order through WriteBinary. A failing element stops the loop; the elements
   * before it stay written and the span is left just past them.
   */
  method WriteArray(buf: array<byte>, span: BS.Span, a: seq<nat>, numBits: int, t: IntType)
    returns (r: Outcome, rest: BS.Span, ghost done: nat)
    requires span.Valid() && span.Within(buf.Length) && numBits <= t.Width()
    requires forall k | 0 <= k < |a| :: t.IsPattern(a[k])
    modifies buf
    ensures done == Consumable(|a|, numBits, span.length)
    ensures Advanced(span, done * Count(numBits), rest)
    ensures r.Pass? <==> done == |a|
    ensures r.Fail? ==> r.error == ArgumentOutOfRange
    ensures ItemsWritten(buf[..], old(buf[..]), span.Pos(), Count(numBits), a, done)
  {
    ghost var bs := buf[..];
    ghost var n := Count(numBits);
    rest := span;
    done := 0;
    ghost var used: nat := 0;
    ItemsWrittenNone(bs, span.Pos(), n, a);
    for i := 0 to |a|
      invariant done == i && i <= Consumable(|a|, numBits, span.length)
      invariant used == i * n && Advanced(span, used, rest)
      invariant rest.Within(buf.Length)
      invariant ItemsWritten(buf[..], bs, span.Pos(), n, a, i)
    {
      ghost var prev := buf[..];
      var written := WriteBinary(buf, rest, t, a[i], numBits);
      if written.Err? {
        ConsumableStop(|a|, numBits, span.length, i);
        return Fail(written.error), rest, done;
      }
      ItemsWrittenStep(buf[..], prev, bs, span.Pos(), n, a, i);
      MulSucc(i, n);
      ConsumableAtLeast(|a|, n, span.length, i + 1);
      rest := written.value;
      used := used + n;
      done := i + 1;
    }
    ConsumableStop(|a|, numBits, span.length, |a|);
    r := Pass;
  }

  /** Before the first element nothing is written. */
  lemma ItemsWrittenNone(s: seq<byte>, pos: nat, n: nat, a: seq<nat>)
    ensures pos <= 8 * |s| ==> ItemsWritten(s, s, pos, n, a, 0)
  {
  }

  /** Writing element i right after the first i extends the elements written by one. */
  lemma ItemsWrittenStep(next: seq<byte>, cur: seq<byte>, s: seq<byte>, pos: nat, n: nat, a: seq<nat>, i: nat)
    requires ItemsWritten(cur, s, pos, n, a, i) && i < |a|
    requires pos + i * n + n <= 8 * |s|
    requires Written(next, cur, pos + i * n, n, a[i])
    ensures ItemsWritten(next, s, pos, n, a, i + 1)
  {
    MulSucc(i, n);
    ItemsExtend(next, cur, pos, n, a, i, pos + i * n);
    FrameExtend(next, cur, s, pos, n, a, i);
  }

  /** The items after writing element i are those before it and element i truncated. */
  lemma ItemsExtend(next: seq<byte>, cur: seq<byte>, pos: nat, n: nat, a: seq<nat>, i: nat, at: nat)
    requires i < |a| && at == pos + i * n && at + n == pos + (i + 1) * n && at + n <= 8 * |cur|
    requires Items(cur, pos, n, i) == Truncated(a[..i], n)
    requires Written(next, cur, at, n, a[i])
    ensures Items(next, pos, n, i + 1) == Truncated(a[..i + 1], n)
  {
    WrittenElsewhereBits(next, cur, at, n, a[i], pos);
    ItemsFrame(next, cur, pos, n, i, at);
    WrittenReadBack(next, cur, at, n, a[i]);
    ItemsSnoc(next, pos, n, i, at);
    TruncatedSnoc(a, n, i);
  }

  /** One more item is the next run of n bits. */
  lemma ItemsSnoc(s: seq<byte>, pos: nat, n: nat, i: nat, at: nat)
    requires at == pos + i * n && at + n == pos + (i + 1) * n && at + n <= 8 * |s|
    ensures Items(s, pos, n, i + 1) == Items(s, pos, n, i) + [Bits(s, at, n)]
  {
  }

  /** Truncating one more element appends that element truncated. */
  lemma TruncatedSnoc(a: seq<nat>, n: nat, i: nat)
    requires i < |a|
    ensures Truncated(a[..i + 1], n) == Truncated(a[..i], n) + [a[i] % Pow2(n)]
  {
    assert a[..i + 1][..i] == a[..i];
  }

  /** Writing element i leaves every bit outside the first i + 1 elements as it was at the start. */
  lemma FrameExtend(next: seq<byte>, cur: seq<byte>, s: seq<byte>, pos: nat, n: nat, a: seq<nat>, i: nat)
    requires ItemsWritten(cur, s, pos, n, a, i) && i < |a|
    requires pos + i * n + n <= 8 * |s| && pos + i * n + n == pos + (i + 1) * n
    requires Written(next, cur, pos + i * n, n, a[i])
    ensures forall c | 0 <= c < 8 * |s| && !(pos <= c < pos + (i + 1) * n) :: BitAt(next, c) == BitAt(s, c)
  {
    var at, end := pos + i * n, pos + (i + 1) * n;
    forall c | 0 <= c < 8 * |s| && !(pos <= c < end)
      ensures BitAt(next, c) == BitAt(s, c)
    {
      assert !(at <= c < end);
    }
  }

  /** A write at bit `at` keeps every bit before it. */
  lemma WrittenElsewhereBits(next: seq<byte>, cur: seq<byte>, at: nat, n: nat, v: nat, pos: nat)
    requires Written(next, cur, at, n, v) && at <= 8 * |cur|
    ensures forall c | pos <= c < at :: BitAt(next, c) == BitAt(cur, c)
  {
  }

  /** Items depend only on the bits they cover. */
  lemma {:induction false} ItemsFrame(s1: seq<byte>, s2: seq<byte>, pos: nat, n: nat, count: nat, end: nat)
    requires |s1| == |s2| && end == pos + count * n && end <= 8 * |s1|
    requires forall c | pos <= c < end :: BitAt(s1, c) == BitAt(s2, c)
    ensures Items(s1, pos, n, count) == Items(s2, pos, n, count)
    decreases count
  {
    if count > 0 {
      var m := count - 1;
      var mid := pos + m * n;
      ItemsLast(s1, pos, n, m, count, mid);
      ItemsLast(s2, pos, n, m, count, mid);
      ItemsFrame(s1, s2, pos, n, m, mid);
      BitsAgree(s1, s2, mid, n);
    }
  }
}
