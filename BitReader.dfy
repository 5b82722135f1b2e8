/**
 * BitReader: reading values off the front of a span. Every reader splits the
 * span, reads the left part and hands back the right part in place of the
 * span it was given (the `ref` parameter); on an exception the caller's span
 * is left as it was. The buffer is only read.
 */
module BitReader {
  import opened Bitwise
  import opened BitString
  import opened Outcomes
  import opened IntTypes
  import opened Codec
  import BS = BitSpan
  import RO = ReadOnlyBitSpan

  /** Which of the two span types a reader overload takes. */
  datatype SpanKind = Mutable | ReadOnly

  /**
   * `ReadBinary<T>(ref span, numBits)`: the first numBits bits of the span as
   * a value of t, and the span advanced past them; a range error unless
   * 0 <= numBits <= Length.
   */
  method ReadBinary(buf: array<byte>, kind: SpanKind, span: BS.Span, t: IntType, numBits: int)
    returns (r: Result<Decoded<nat>>)
    requires span.Valid() && span.Within(buf.Length) && numBits <= t.Width()
    ensures r.Ok? <==> 0 <= numBits <= span.length
    ensures r.Err? ==> r.error == ArgumentOutOfRange
    ensures r.Ok? ==> && r.value.value == Bits(buf[..], span.Pos(), numBits)
                      && Advanced(span, numBits, r.value.rest)
  {
    var halves := BS.Split(span, numBits);
    if halves.Err? {
      return Err(halves.error);
    }
    var valueBits, outBits := halves.value.left, halves.value.right;
    var value;
    if kind == Mutable {
      value := BS.ReadAs(buf, valueBits, t);
    } else {
      value := RO.ReadAs(buf, valueBits, t);
    }
    return Ok(Decoded(value, outBits));
  }

  /** The value of a fixed-width or variable-width read, given the bit pattern it read. */
  function Interpret(t: IntType, pattern: nat, numBits: nat): (x: int)
    requires numBits <= t.Width() && pattern < Pow2(numBits)
    ensures t.InRange(x)
    ensures numBits < t.Width() ==> x == pattern
    ensures x % Pow2(t.Width()) == pattern
  {
    PatternFacts(t, pattern, numBits);
    FromBits(t, pattern)
  }

  lemma PatternFacts(t: IntType, pattern: nat, numBits: nat)
    requires numBits <= t.Width() && pattern < Pow2(numBits)
    ensures t.IsPattern(pattern)
    ensures numBits < t.Width() ==> FromBits(t, pattern) == pattern
  {
    Pow2Mono(numBits, t.Width());
    if numBits < t.Width() {
      NarrowIsNonNegative(t, pattern, numBits);
    }
  }

  /**
   * `ReadInt8(ref span)` ... `ReadUInt64(ref span)`: sizeof(T) * 8 bits read
   * as a value of T, two's complement for the signed types.
   */
  method ReadInteger(buf: array<byte>, kind: SpanKind, span: BS.Span, t: IntType)
    returns (r: Result<Decoded<int>>)
    requires span.Valid() && span.Within(buf.Length)
    ensures r.Ok? <==> t.Width() <= span.length
    ensures r.Err? ==> r.error == ArgumentOutOfRange
    ensures r.Ok? ==> && t.InRange(r.value.value)
                      && ToBits(t, r.value.value) == Bits(buf[..], span.Pos(), t.Width())
                      && Advanced(span, t.Width(), r.value.rest)
  {
    var read := ReadBinary(buf, kind, span, t, t.Width());
    if read.Err? {
      return Err(read.error);
    }
    var x := Interpret(t, read.value.value, t.Width());
    ToFromBits(t, read.value.value);
    return Ok(Decoded(x, read.value.rest));
  }

  /**
   * `ReadInt8(ref span, numBits)` ... `ReadUInt64(ref span, numBits)`: a range
   * error, before the span is looked at, unless 1 <= numBits <= sizeof(T) * 8;
   * then numBits bits read as an unsigned number. A narrower read is never
   * sign-extended, even for a signed T.
   */
  method ReadIntegerBits(buf: array<byte>, kind: SpanKind, span: BS.Span, t: IntType, numBits: int)
    returns (r: Result<Decoded<int>>)
    requires span.Valid() && span.Within(buf.Length)
    ensures r.Ok? <==> 1 <= numBits <= t.Width() && numBits <= span.length
    ensures r.Err? ==> r.error == ArgumentOutOfRange
    ensures r.Ok? ==> && t.InRange(r.value.value)
                      && r.value.value % Pow2(t.Width()) == Bits(buf[..], span.Pos(), numBits)
                      && (numBits < t.Width() ==> r.value.value == Bits(buf[..], span.Pos(), numBits))
                      && Advanced(span, numBits, r.value.rest)
  {
    var minSize := 1;
    if numBits < minSize {
      return Err(ArgumentOutOfRange);
    }
    var maxSize := t.Width();
    if numBits > maxSize {
      return Err(ArgumentOutOfRange);
    }
    var read := ReadBinary(buf, kind, span, t, numBits);
    if read.Err? {
      return Err(read.error);
    }
    var x := Interpret(t, read.value.value, numBits);
    return Ok(Decoded(x, read.value.rest));
  }

  /** `ReadBool(ref span)`: one bit, true exactly when it is set. */
  method ReadBool(buf: array<byte>, kind: SpanKind, span: BS.Span) returns (r: Result<Decoded<bool>>)
    requires span.Valid() && span.Within(buf.Length)
    ensures r.Ok? <==> 1 <= span.length
    ensures r.Err? ==> r.error == ArgumentOutOfRange
    ensures r.Ok? ==> && (r.value.value <==> BitAt(buf[..], span.Pos()) == 1)
                      && Advanced(span, 1, r.value.rest)
  {
    var read := ReadBinary(buf, kind, span, UInt8, 1);
    if read.Err? {
      return Err(read.error);
    }
    OneBit(buf[..], span.Pos());
    return Ok(Decoded(read.value.value != 0, read.value.rest));
  }

  /** A one-bit read is the bit itself. */
  lemma OneBit(buf: seq<byte>, a: nat)
    requires a < 8 * |buf|
    ensures Bits(buf, a, 1) == BitAt(buf, a)
  {
    assert Bits(buf, a, 0) == 0;
  }

  /** The items ReadArray can store: numItems, but no more than the destination holds. */
  function Slots(numItems: int, dstLength: nat): (n: nat)
    ensures n <= dstLength && n <= Count(numItems)
    ensures n == dstLength || n == Count(numItems)
  {
    if Count(numItems) < dstLength then Count(numItems) else dstLength
  }

  /**
   * The state ReadArray leaves behind after storing `done` items: the first
   * done slots hold the first done runs of numBits bits from the span's
   * start, and the slots after them are as they were.
   */
  ghost predicate ItemsRead(dst: seq<nat>, old_dst: seq<nat>, buf: seq<byte>, pos: nat, numBits: nat, done: nat)
  {
    && |dst| == |old_dst| && done <= |dst|
    && pos + done * numBits <= 8 * |buf|
    && dst[..done] == Items(buf, pos, numBits, done)
    && dst[done..] == old_dst[done..]
  }

  /**
   * `ReadArray(ref span, dstArray, numItems, numBitsPerElement, cast)`: for i
   * from 0 while i < numItems, store a numBitsPerElement-bit read in
   * dstArray[i]. The index is checked before each read; an exception stops the
   * loop with the items read so far stored and the span advanced past them.
   */
  method ReadArrayInto(buf: array<byte>, span: BS.Span, dst: array<nat>, numItems: int, numBits: int, t: IntType)
    returns (r: Outcome, rest: BS.Span, ghost done: nat)
    requires span.Valid() && span.Within(buf.Length) && numBits <= t.Width()
    modifies dst
    ensures done == Consumable(Slots(numItems, dst.Length), numBits, span.length)
    ensures Advanced(span, done * Count(numBits), rest)
    ensures r.Pass? <==> done == Count(numItems)
    ensures r.Fail? ==> r.error == if done == dst.Length then IndexOutOfRange else ArgumentOutOfRange
    ensures ItemsRead(dst[..], old(dst[..]), buf[..], span.Pos(), Count(numBits), done)
  {
    ghost var bs := buf[..];
    ghost var items := Count(numItems);
    ghost var cap := Slots(numItems, dst.Length);
    ghost var n := Count(numBits);
    rest := span;
    done := 0;
    ghost var used: nat := 0;
    var i := 0;
    while i < numItems
      invariant 0 <= i <= items && done == i && i <= dst.Length
      invariant i <= Consumable(cap, numBits, span.length)
      invariant used == i * n && Advanced(span, used, rest)
      invariant rest.Within(buf.Length)
      invariant ItemsRead(dst[..], old(dst[..]), bs, span.Pos(), n, i)
    {
      if i >= dst.Length {
        ConsumableStop(cap, numBits, span.length, i);
        return Fail(IndexOutOfRange), rest, done;
      }
      var read := ReadBinary(buf, Mutable, rest, t, numBits);
      if read.Err? {
        ConsumableStop(cap, numBits, span.length, i);
        return Fail(read.error), rest, done;
      }
      ghost var prev := dst[..];
      var v := read.value.value;
      dst[i] := v;
      ReadArrayStep(bs, span, rest, read.value.rest, used, n, i, v, prev, old(dst[..]), dst[..]);
      ConsumableAtLeast(cap, n, span.length, i + 1);
      rest := read.value.rest;
      used := used + n;
      i := i + 1;
      done := i;
    }
    ConsumableStop(cap, numBits, span.length, i);
    r := Pass;
  }

  /** One turn of the ReadArray loop: the span moves on by one item and slot i holds it. */
  lemma ReadArrayStep(bs: seq<byte>, span: BS.Span, rest: BS.Span, rest': BS.Span, used: nat, n: nat, i: nat, v: nat,
                      prev: seq<nat>, old_dst: seq<nat>, dst': seq<nat>)
    requires span.Valid() && span.Within(|bs|)
    requires used == i * n && Advanced(span, used, rest) && Advanced(rest, n, rest')
    requires ItemsRead(prev, old_dst, bs, span.Pos(), n, i) && i < |prev|
    requires v == Bits(bs, rest.Pos(), n) && dst' == prev[i := v]
    ensures used + n == (i + 1) * n && Advanced(span, used + n, rest')
    ensures ItemsRead(dst', old_dst, bs, span.Pos(), n, i + 1)
  {
    MulSucc(i, n);
    ItemsReadStep(prev, old_dst, bs, span.Pos(), n, i, i + 1, rest.Pos(), v, dst');
  }

  /** Storing the next read, the n bits at `at`, in slot i extends the items read by one. */
  lemma ItemsReadStep(dst: seq<nat>, old_dst: seq<nat>, buf: seq<byte>, pos: nat, n: nat, i: nat, c: nat, at: nat, v: nat, dst': seq<nat>)
    requires ItemsRead(dst, old_dst, buf, pos, n, i) && i < |dst| && c == i + 1
    requires at == pos + i * n && at + n <= 8 * |buf| && v == Bits(buf, at, n)
    requires dst' == dst[i := v]
    ensures ItemsRead(dst', old_dst, buf, pos, n, c)
  {
    ItemsLast(buf, pos, n, i, c, at);
    assert dst'[..c] == dst[..i] + [v];
    assert dst'[c..] == dst[c..];
  }

  /**
   * `ReadArray(ref span, numItems, numBitsPerElement, cast)`: a new array of
   * numItems elements filled by ReadArrayInto. A negative count fails when the
   * array is allocated, before anything is read.
   */
  method ReadArray(buf: array<byte>, span: BS.Span, numItems: int, numBits: int, t: IntType)
    returns (r: Result<array<nat>>, rest: BS.Span)
    requires span.Valid() && span.Within(buf.Length) && numBits <= t.Width()
    ensures numItems < 0 ==> r == Err(Overflow) && rest == span
    ensures r.Ok? <==> 0 <= numItems && Consumable(numItems, numBits, span.length) == numItems
    ensures r.Err? && 0 <= numItems ==> r.error == ArgumentOutOfRange
    ensures 0 <= numItems ==> Advanced(span, Consumable(numItems, numBits, span.length) * Count(numBits), rest)
    ensures r.Ok? ==> && Advanced(span, numItems * Count(numBits), rest)
                      && fresh(r.value) && r.value.Length == numItems
                      && ItemsRead(r.value[..], r.value[..], buf[..], span.Pos(), Count(numBits), numItems)
  {
    if numItems < 0 {
      return Err(Overflow), span;
    }
    var elements := new nat[numItems];
    var outcome;
    ghost var done;
    outcome, rest, done := ReadArrayInto(buf, span, elements, numItems, numBits, t);
    assert Slots(numItems, elements.Length) == numItems;
    if outcome.Fail? {
      return Err(outcome.error), rest;
    }
    r := Ok(elements);
  }
}
