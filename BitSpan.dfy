/**
 * BitSpan: a window of bits over a byte buffer. A span is the byte slice it
 * was built from, a bit offset into the slice's first byte and a length in
 * bits. All spans of a program view one shared buffer, so a span here is a
 * value naming the slice by its first byte and byte count; the buffer itself
 * is an array passed to the operations that read or write it.
 *
 * ReadOnlyBitSpan has the same triple and the same constructor, Slice and
 * Split; the implicit conversion from BitSpan keeps all three, so both are
 * this one datatype. Only ReadAs exists in two versions (ReadOnlyBitSpan.dfy).
 */
module BitSpan {
  import opened Bitwise
  import opened BitString
  import opened Outcomes
  import opened IntTypes
  import opened BitIndexMapping
  import opened SpanBytes

  /** Bytes [start, start + count) of the buffer, from bit `offset` of byte `start`, `length` bits long. */
  datatype Span = Span(start: nat, count: nat, offset: nat, length: nat)
  {
    /** What the constructor establishes: a sub-byte offset, and the bits fit in the slice. */
    predicate Valid() {
      offset < 8 && offset + length <= 8 * count
    }

    /** The slice lies in a buffer of `size` bytes. */
    predicate Within(size: nat) {
      start + count <= size
    }

    /** Position of the span's first bit in the whole buffer. */
    function Pos(): nat {
      8 * start + offset
    }

    /** One past the last byte of the slice. */
    function End(): nat {
      start + count
    }
  }

  /** The value of the span's bits in a buffer, most significant bit first. */
  ghost function Contents(buf: seq<byte>, s: Span): nat
    requires s.Valid() && s.Within(|buf|)
  {
    Bits(buf, s.Pos(), s.length)
  }

  /**
   * `new BitSpan(data, offset, length)` over the slice [start, start + count):
   * a range error unless the offset is non-negative and the bits fit; then the
   * whole bytes of the offset are dropped from the slice.
   */
  function New(start: nat, count: nat, offset: int, length: int): (r: Result<Span>)
    ensures r.Ok? <==> 0 <= offset && 0 <= length && offset + length <= 8 * count
    ensures r.Err? ==> r.error == ArgumentOutOfRange
    ensures r.Ok? ==> && r.value.Valid() && r.value.Pos() == 8 * start + offset
                      && r.value.length == length && r.value.End() == start + count
  {
    if length + offset > count * 8 then Err(ArgumentOutOfRange)
    // a negative offset fails the slice data[offset / 8..] or the bit-offset check
    else if offset < 0 then Err(ArgumentOutOfRange)
    else if length < 0 then Err(ArgumentOutOfRange)
    else Ok(Span(start + offset / 8, count - offset / 8, offset % 8, length))
  }

  /**
   * `Slice(skipBits, length)`: an overflow when the new span would end past
   * the slice's capacity (checked against the bytes, not against Length);
   * otherwise a span of `length` bits starting `skipBits` bits later.
   */
  function Slice(s: Span, skipBits: int, length: int): (r: Result<Span>)
    requires s.Valid()
    ensures r == Err(Overflow) <==> 8 * s.count < s.offset + skipBits + length
    ensures r.Ok? <==> && s.offset + skipBits + length <= 8 * s.count
                       && 0 <= s.offset + skipBits && 0 <= length
    ensures r.Err? ==> r.error in {Overflow, ArgumentOutOfRange}
    ensures r.Ok? ==> && r.value.Valid() && r.value.Pos() == s.Pos() + skipBits
                      && r.value.length == length && r.value.End() == s.End()
  {
    if s.count * 8 < s.offset + skipBits + length then Err(Overflow)
    else
      var startBit := s.offset + skipBits;
      // a negative start fails the slice data[startBit / 8..] or the bit-offset check
      if startBit < 0 then Err(ArgumentOutOfRange)
      else
        var newByteIndex, newOffset := startBit / 8, startBit % 8;
        if newByteIndex > s.count then Err(ArgumentOutOfRange)
        else New(s.start + newByteIndex, s.count - newByteIndex, newOffset, length)
  }

  /** `Slice(skipBits)` and `span[skipBits..]`: the rest of the span after skipBits bits. */
  function SliceRest(s: Span, skipBits: int): (r: Result<Span>)
    requires s.Valid()
    ensures r.Ok? <==> -(s.offset as int) <= skipBits <= s.length
    ensures r.Err? ==> r.error == ArgumentOutOfRange
    ensures r.Ok? ==> && r.value.Valid() && r.value.Pos() == s.Pos() + skipBits
                      && r.value.length == s.length - skipBits && r.value.End() == s.End()
  {
    Slice(s, skipBits, s.length - skipBits)
  }

  /** The two spans Split produces. */
  datatype Halves = Halves(left: Span, right: Span)

  /**
   * left holds the first k bits of s and right the rest: left starts where s
   * starts and right exactly k bits later, both inside the bytes of s.
   */
  predicate SplitAt(s: Span, k: nat, h: Halves) {
    && h.left.Valid() && h.right.Valid()
    && h.left.Pos() == s.Pos() && h.left.length == k
    && h.right.Pos() == s.Pos() + k && h.right.length + k == s.length
    && h.left.start == s.start && h.left.End() <= s.End()
    && s.start <= h.right.start && h.right.End() == s.End()
  }

  /** `Split(offset, out left, out right)`: a range error unless 0 <= offset <= Length. */
  function Split(s: Span, offset: int): (r: Result<Halves>)
    requires s.Valid()
    ensures r.Ok? <==> 0 <= offset <= s.length
    ensures r.Err? ==> r.error == ArgumentOutOfRange
    ensures r.Ok? ==> SplitAt(s, offset, r.value)
  {
    if offset < 0 || offset > s.length then Err(ArgumentOutOfRange)
    else
      var startBit := s.offset + offset;
      var byteSliceIndex := startBit / 8;
      var rightBitOffset := startBit % 8;
      var leftByteLength := if rightBitOffset != 0 then byteSliceIndex + 1 else byteSliceIndex;
      var left := New(s.start, leftByteLength, s.offset, offset);
      var right := New(s.start + byteSliceIndex, s.count - byteSliceIndex, rightBitOffset, s.length - offset);
      Ok(Halves(left.value, right.value))
  }

  /** Splitting gives back the span's bits: the left part read above the right part. */
  lemma SplitContents(buf: seq<byte>, s: Span, k: nat, h: Halves)
    requires s.Valid() && s.Within(|buf|) && SplitAt(s, k, h)
    ensures h.left.Within(|buf|) && h.right.Within(|buf|)
    ensures Contents(buf, s) == Contents(buf, h.left) * Pow2(h.right.length) + Contents(buf, h.right)
  {
    BitsSplit(buf, s.Pos(), s.length, k, h.right.length, h.right.Pos());
  }

  /** Reading the span from skipBits on gives the low Length - skipBits bits of reading it whole. */
  lemma SliceRestContents(buf: seq<byte>, s: Span, skipBits: nat, t: Span)
    requires s.Valid() && s.Within(|buf|) && SliceRest(s, skipBits) == Ok(t)
    ensures skipBits <= s.length && t.Within(|buf|)
    ensures Contents(buf, t) == Contents(buf, s) % Pow2(s.length - skipBits)
  {
    BitsSuffix(buf, s.Pos(), s.length, skipBits, t.Pos(), t.length);
  }

  /** Slicing at Length gives the empty span. */
  lemma SliceToEnd(s: Span)
    requires s.Valid()
    ensures SliceRest(s, s.length).Ok? && SliceRest(s, s.length).value.length == 0
  {
  }

  /**
   * The implicit conversion to ReadOnlyBitSpan rebuilds the span from its
   * bytes, offset and Length; on a span the constructor made, that is the
   * same span.
   */
  function ToReadOnly(s: Span): (r: Result<Span>)
    requires s.Valid()
    ensures r == Ok(s)
  {
    DivModUnique(s.offset, 8, 0, s.offset);
    New(s.start, s.count, s.offset, s.length)
  }

  // ---------------------------------------------------------------------
  // Reading and writing the bits of a span

  /**
   * `ReadAs<T>()`: the span's bits as an unsigned number, most significant bit
   * first, in a value of t's width. A byte is widened to T with zero extension.
   */
  method ReadAs(buf: array<byte>, s: Span, t: IntType) returns (value: nat)
    requires s.Valid() && s.Within(buf.Length) && s.length <= t.Width()
    ensures value == Contents(buf[..], s)
  {
    ghost var bs := buf[..];
    var w := t.Width();
    if s.length == 0 {
      return 0;
    }
    var m := From(s.offset, s.length, s.count);
    if m.numBytes == 1 {
      var firstByte := ToByte(ShiftRight(And(And(buf[s.start], m.first.mask), m.last.mask), m.last.padding));
      ReadOneByte(bs, s, m);
      return firstByte;
    }
    // first byte
    var b := ToByte(And(buf[s.start], m.first.mask));
    var bitsRemaining: nat := s.length - m.first.NumBits();
    ReadHead(bs, s, m, w, bitsRemaining);
    value := ShiftLeft(b, bitsRemaining, w);
    // whole bytes
    for i := 1 to m.LastByteIndex()
      invariant Prefix(bs, s, i, value, bitsRemaining)
    {
      var v := buf[s.start + i];
      WholeByteLeft(bs, s, m, w, i, value, bitsRemaining);
      ghost var r := bitsRemaining;
      bitsRemaining := bitsRemaining - 8;
      ReadWhole(bs, s, m, w, i, value, r, bitsRemaining, v);
      value := Or(value, ShiftLeft(v, bitsRemaining, w));
    }
    // last byte
    var last := ToByte(ShiftRight(And(buf[s.start + m.LastByteIndex()], m.last.mask), m.last.padding));
    ReadTail(bs, s, m, value, bitsRemaining);
    value := Or(value, last);
  }

  /**
   * The loop state of ReadAs after its first i bytes: value holds the bits of
   * those bytes that belong to the span, shifted above the bitsRemaining
   * bits still to come.
   */
  ghost predicate Prefix(bs: seq<byte>, s: Span, i: nat, value: nat, bitsRemaining: nat)
    requires s.Valid() && s.Within(|bs|)
  {
    && 1 <= i
    && bitsRemaining + Done(s, i) == s.length
    && value == Bits(bs, s.Pos(), Done(s, i)) * Pow2(bitsRemaining)
  }

  /** How many of the span's bits lie in its first i bytes, all of them touched. */
  ghost function Done(s: Span, i: nat): nat
    requires s.offset < 8 && 1 <= i
  {
    8 * i - s.offset
  }

  /** A span inside one byte is that byte masked at both ends and shifted down. */
  lemma ReadOneByte(bs: seq<byte>, s: Span, m: Mapping)
    requires s.Valid() && s.Within(|bs|) && 0 < s.length
    requires m == From(s.offset, s.length, s.count) && m.numBytes == 1
    ensures ToByte(ShiftRight(And(And(bs[s.start], m.first.mask), m.last.mask), m.last.padding)) == Contents(bs, s)
  {
    ReadSingleByte(bs, s.start, s.offset, s.length, m.last.padding, m.first.mask, s.Pos(), m.first.NumBits());
  }

  /** The first byte, masked and shifted up, starts the loop state. */
  lemma ReadHead(bs: seq<byte>, s: Span, m: Mapping, w: nat, r: nat)
    requires s.Valid() && s.Within(|bs|) && 0 < s.length <= w
    requires m == From(s.offset, s.length, s.count) && m.numBytes > 1
    requires r == s.length - m.first.NumBits()
    ensures Prefix(bs, s, 1, ShiftLeft(ToByte(And(bs[s.start], m.first.mask)), r, w), r)
  {
    var a, k := s.Pos(), m.first.NumBits();
    var x := And(bs[s.start], m.first.mask);
    ReadFirstByte(bs, s.start, s.offset, m.first.mask, a, k);
    ModOfSmall(x, 256);
    ShiftNoWrap(x, k, r, w);
    assert Done(s, 1) == k;
  }

  /** Before a whole middle byte, at least its eight bits remain to be read. */
  lemma WholeByteLeft(bs: seq<byte>, s: Span, m: Mapping, w: nat, i: nat, value: nat, r: nat)
    requires s.Valid() && s.Within(|bs|) && 0 < s.length <= w
    requires m == From(s.offset, s.length, s.count) && 1 <= i < m.LastByteIndex()
    requires Prefix(bs, s, i, value, r)
    ensures r >= 8
  {
  }

  /** A whole middle byte v, shifted into place, extends the loop state by eight bits. */
  lemma ReadWhole(bs: seq<byte>, s: Span, m: Mapping, w: nat, i: nat, value: nat, r: nat, r1: nat, v: byte)
    requires s.Valid() && s.Within(|bs|) && 0 < s.length <= w
    requires m == From(s.offset, s.length, s.count) && 1 <= i < m.LastByteIndex()
    requires Prefix(bs, s, i, value, r) && r1 + 8 == r && v == bs[s.start + i]
    ensures Prefix(bs, s, i + 1, Or(value, ShiftLeft(v, r1, w)), r1)
  {
    var d, d1, n := Done(s, i), Done(s, i + 1), 8;
    assert d1 == d + n;
    ReadStep(bs, s.Pos(), d, d1, n, r, r1, w, value, s.start + i);
  }

  /** The last byte, masked and shifted down, completes the span's bits. */
  lemma ReadTail(bs: seq<byte>, s: Span, m: Mapping, value: nat, r: nat)
    requires s.Valid() && s.Within(|bs|) && 0 < s.length
    requires m == From(s.offset, s.length, s.count) && m.numBytes > 1
    requires Prefix(bs, s, m.LastByteIndex(), value, r)
    ensures Or(value, ToByte(ShiftRight(And(bs[s.start + m.LastByteIndex()], m.last.mask), m.last.padding)))
            == Contents(bs, s)
  {
    var idx := s.start + m.LastByteIndex();
    var d := Done(s, m.LastByteIndex());
    var at := 8 * idx;
    assert r + m.last.padding == 8 && at == s.Pos() + d;
    var last := ToByte(ShiftRight(And(bs[idx], m.last.mask), m.last.padding));
    ReadLastByte(bs, idx, m.last.padding, r, at);
    ReadFinish(bs, s.Pos(), d, at, r, s.length, value, last);
  }

  /**
   * `Write<T>(value)`: the low Length bits of value replace the span's bits,
   * most significant bit first; every other bit of the buffer is kept.
   */
  method Write(buf: array<byte>, s: Span, t: IntType, value: nat)
    requires s.Valid() && s.Within(buf.Length) && s.length <= t.Width() && t.IsPattern(value)
    modifies buf
    ensures Written(buf[..], old(buf[..]), s.Pos(), s.length, value)
  {
    ghost var bs := buf[..];
    var w := t.Width();
    if s.length == 0 {
      WrittenNothing(buf[..], bs, s.Pos(), value);
      return;
    }
    var m := From(s.offset, s.length, s.count);
    if m.numBytes == 1 {
      WriteInOneByte(buf, s, m, value);
    } else {
      WriteSeveralBytes(buf, s, m, w, value);
    }
  }

  /** The branch of Write for a span over several bytes: first byte, whole bytes, last byte. */
  method WriteSeveralBytes(buf: array<byte>, s: Span, m: Mapping, w: nat, value: nat)
    requires s.Valid() && s.Within(buf.Length) && 0 < s.length <= w && 8 <= w
    requires m == From(s.offset, s.length, s.count) && m.numBytes > 1
    modifies buf
    ensures Written(buf[..], old(buf[..]), s.Pos(), s.length, value)
  {
    ghost var bs := buf[..];
    // first byte
    var bitsRemaining: nat := s.length - m.first.NumBits();
    var first := ToByte(Or(And(buf[s.start], Not8(m.first.mask)),
                           And(ToByte(ShiftRight(value, bitsRemaining)), m.first.mask)));
    buf[s.start] := first;
    WriteHead(bs, s, m, value, bitsRemaining, buf[..]);
    // whole bytes
    for i := 1 to m.LastByteIndex()
      invariant bitsRemaining + Done(s, i) == s.length
      invariant WriteProgress(buf[..], bs, s, value, s.start + i)
    {
      ghost var prev := buf[..];
      bitsRemaining := bitsRemaining - 8;
      buf[s.start + i] := ToByte(ShiftRight(value, bitsRemaining));
      WriteWhole(bs, s, m, value, i, bitsRemaining, prev, buf[..]);
    }
    // last byte
    var idx := s.start + m.LastByteIndex();
    ghost var prev := buf[..];
    var last := ToByte(Or(And(buf[idx], Not8(m.last.mask)),
                          And(ToByte(ShiftLeft(value, m.last.padding, w)), m.last.mask)));
    buf[idx] := last;
    WriteTail(bs, s, m, value, w, prev, idx, last, buf[..]);
  }

  /** The branch of Write for a span inside a single byte: one read-modify-write of that byte. */
  method WriteInOneByte(buf: array<byte>, s: Span, m: Mapping, value: nat)
    requires s.Valid() && s.Within(buf.Length) && 0 < s.length
    requires m == From(s.offset, s.length, s.count) && m.numBytes == 1
    modifies buf
    ensures Written(buf[..], old(buf[..]), s.Pos(), s.length, value)
  {
    ghost var bs := buf[..];
    MaskFits(s, m);
    var shifted := Shl(ToByte(value), m.last.padding);
    var valueByte := ToByte(Or(And(And(shifted, m.first.mask), m.last.mask),
                               And(buf[s.start], Not8(And(m.first.mask, m.last.mask)))));
    buf[s.start] := valueByte;
    WriteOneByte(bs, s, m, value, buf[..]);
  }

  /**
   * The loop state of Write: bytes of the slice before `upto` hold their
   * final value, every other byte is still as it was.
   */
  ghost predicate WriteProgress(cur: seq<byte>, bs: seq<byte>, s: Span, value: nat, upto: nat)
  {
    && |cur| == |bs|
    && s.start <= upto
    && forall k | 0 <= k < |bs| ::
         if s.start <= k < upto then ByteWritten(cur[k], bs, s.Pos(), s.length, value, k) else cur[k] == bs[k]
  }

  /** Storing the final value of byte k, the next one in order, advances the loop state. */
  lemma WriteStep(cur: seq<byte>, bs: seq<byte>, s: Span, value: nat, k: nat, x: byte)
    requires (k == s.start && cur == bs) || WriteProgress(cur, bs, s, value, k)
    requires k < |bs| && s.start <= k && |cur| == |bs|
    requires ByteWritten(x, bs, s.Pos(), s.length, value, k)
    ensures WriteProgress(cur[k := x], bs, s, value, k + 1)
  {
  }

  /** Once every byte the span touches holds its final value, the whole buffer is as written. */
  lemma WriteDone(cur: seq<byte>, bs: seq<byte>, s: Span, m: Mapping, value: nat)
    requires s.Valid() && s.Within(|bs|) && 0 < s.length
    requires m == From(s.offset, s.length, s.count)
    requires WriteProgress(cur, bs, s, value, s.start + m.numBytes)
    ensures Written(cur, bs, s.Pos(), s.length, value)
  {
    forall k | 0 <= k < |bs|
      ensures ByteWritten(cur[k], bs, s.Pos(), s.length, value, k)
    {
      if !(s.start <= k < s.start + m.numBytes) {
        ByteUntouched(bs, s.Pos(), s.length, value, k);
      }
    }
    WrittenFromBytes(cur, bs, s.Pos(), s.length, value);
  }

  /** The mask of a span inside one byte is itself a byte. */
  lemma MaskFits(s: Span, m: Mapping)
    requires s.Valid() && 0 < s.length && s.length <= 8 * s.count
    requires m == From(s.offset, s.length, s.count)
    ensures And(m.first.mask, m.last.mask) < 256
  {
    SpanMaskBit(m.first.mask, m.last.mask, s.offset, m.last.padding, 0);
  }

  /** A span inside one byte: the shifted value under both masks, over the byte's other bits. */
  lemma WriteOneByte(bs: seq<byte>, s: Span, m: Mapping, value: nat, cur: seq<byte>)
    requires s.Valid() && s.Within(|bs|) && 0 < s.length
    requires m == From(s.offset, s.length, s.count) && m.numBytes == 1
    requires And(m.first.mask, m.last.mask) < 256
    requires cur == bs[s.start := ToByte(Or(And(And(Shl(ToByte(value), m.last.padding), m.first.mask), m.last.mask),
                                            And(bs[s.start], Not8(And(m.first.mask, m.last.mask)))))]
    ensures Written(cur, bs, s.Pos(), s.length, value)
  {
    WriteSingleByte(bs, s.start, s.Pos(), s.length, value, s.offset, m.last.padding, m.first.mask);
    WriteStep(bs, bs, s, value, s.start, cur[s.start]);
    WriteDone(cur, bs, s, m, value);
  }

  /** The first byte of a span over several bytes: its low bits take the value's high bits. */
  lemma WriteHead(bs: seq<byte>, s: Span, m: Mapping, value: nat, r: nat, cur: seq<byte>)
    requires s.Valid() && s.Within(|bs|) && 0 < s.length
    requires m == From(s.offset, s.length, s.count) && m.numBytes > 1
    requires r == s.length - m.first.NumBits()
    requires cur == bs[s.start := ToByte(Or(And(bs[s.start], Not8(m.first.mask)),
                                            And(ToByte(ShiftRight(value, r)), m.first.mask)))]
    ensures WriteProgress(cur, bs, s, value, s.start + 1)
  {
    WriteFirstByte(bs, s.start, s.Pos(), s.length, value, s.offset, m.first.mask, r, m.first.NumBits());
    WriteStep(bs, bs, s, value, s.start, cur[s.start]);
  }

  /** Middle byte i of the span: the eight value bits that sit r bits above its end. */
  lemma WriteWhole(bs: seq<byte>, s: Span, m: Mapping, value: nat, i: nat, r: nat, prev: seq<byte>, cur: seq<byte>)
    requires s.Valid() && s.Within(|bs|) && 0 < s.length
    requires m == From(s.offset, s.length, s.count) && 1 <= i < m.LastByteIndex()
    requires r + Done(s, i + 1) == s.length
    requires WriteProgress(prev, bs, s, value, s.start + i)
    requires s.start + i < |prev| && cur == prev[s.start + i := ToByte(ShiftRight(value, r))]
    ensures WriteProgress(cur, bs, s, value, s.start + i + 1)
  {
    WriteWholeByte(bs, s.start + i, s.Pos(), s.length, value, r);
    WriteStep(prev, bs, s, value, s.start + i, cur[s.start + i]);
  }

  /** The last byte of a span over several bytes: its high bits take the value's low bits. */
  lemma WriteTail(bs: seq<byte>, s: Span, m: Mapping, value: nat, w: nat, prev: seq<byte>, idx: nat, last: byte, cur: seq<byte>)
    requires s.Valid() && s.Within(|bs|) && 0 < s.length && 8 <= w
    requires m == From(s.offset, s.length, s.count) && m.numBytes > 1
    requires idx == s.start + m.LastByteIndex() && idx < |prev|
    requires WriteProgress(prev, bs, s, value, idx)
    requires last == ToByte(Or(And(prev[idx], Not8(m.last.mask)), And(ToByte(ShiftLeft(value, m.last.padding, w)), m.last.mask)))
    requires cur == prev[idx := last]
    ensures Written(cur, bs, s.Pos(), s.length, value)
  {
    WriteLastByte(bs, idx, s.Pos(), s.length, value, m.last.padding, w);
    WriteStep(prev, bs, s, value, idx, last);
    WriteDone(cur, bs, s, m, value);
  }

  // ---------------------------------------------------------------------
  // The numBits extensions: span[..numBits] then ReadAs or Write

  /**
   * `span.ReadAs<T>(numBits)`: the first numBits bits from the span's start.
   * The slice is checked against the bytes of the span, not its Length.
   */
  method ReadAsBits(buf: array<byte>, s: Span, t: IntType, numBits: int) returns (r: Result<nat>)
    requires s.Valid() && s.Within(buf.Length) && numBits <= t.Width()
    ensures r.Ok? <==> 0 <= numBits && s.offset + numBits <= 8 * s.count
    ensures r.Err? ==> r.error == (if 8 * s.count < s.offset + numBits then Overflow else ArgumentOutOfRange)
    ensures r.Ok? ==> r.value == Bits(buf[..], s.Pos(), numBits)
  {
    var slice := Slice(s, 0, numBits);
    if slice.Err? {
      return Err(slice.error);
    }
    var value := ReadAs(buf, slice.value, t);
    return Ok(value);
  }

  /**
   * `span.Write<T>(value, numBits)`: the low numBits bits of value go to the
   * first numBits bits of the span; on an error nothing is written.
   */
  method WriteBits(buf: array<byte>, s: Span, t: IntType, value: nat, numBits: int) returns (r: Outcome)
    requires s.Valid() && s.Within(buf.Length) && numBits <= t.Width() && t.IsPattern(value)
    modifies buf
    ensures r.Pass? <==> 0 <= numBits && s.offset + numBits <= 8 * s.count
    ensures r.Fail? ==> r.error == (if 8 * s.count < s.offset + numBits then Overflow else ArgumentOutOfRange)
    ensures r.Fail? ==> buf[..] == old(buf[..])
    ensures r.Pass? ==> Written(buf[..], old(buf[..]), s.Pos(), numBits, value)
  {
    var slice := Slice(s, 0, numBits);
    if slice.Err? {
      return Fail(slice.error);
    }
    Write(buf, slice.value, t, value);
    return Pass;
  }
}
