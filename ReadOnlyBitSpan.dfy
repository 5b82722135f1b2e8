/**
 * ReadOnlyBitSpan: the read-only view of a bit span. It shares the span value,
 * constructor, Slice and Split of BitSpan; what it adds is its own ReadAs
 * (which computes the remaining bit count before the first byte rather than
 * after it) and the numBits extension over that ReadAs. Nothing here has a
 * `modifies` clause: a read-only span cannot change the buffer.
 */
module ReadOnlyBitSpan {
  import opened Bitwise
  import opened BitString
  import opened Outcomes
  import opened IntTypes
  import opened BitIndexMapping
  import opened BitSpan

  /** `ReadOnlyBitSpan.ReadAs<T>()`: the span's bits as an unsigned number, most significant bit first. */
  method ReadAs(buf: array<byte>, s: Span, t: IntType) returns (value: nat)
    requires s.Valid() && s.Within(buf.Length) && s.length <= t.Width()
    ensures value == Contents(buf[..], s)
  {
    ghost var bs := buf[..];
    var w := t.Width();
    if s.length == 0 {
      return 0;
    }
    var m := From(s.offset, s.length, s.count);
    if m.numBytes == 1 {
      var firstByte := ToByte(ShiftRight(And(And(buf[s.start], m.first.mask), m.last.mask), m.last.padding));
      ReadOneByte(bs, s, m);
      return firstByte;
    }
    var bitsRemaining: nat := s.length - m.first.NumBits();
    // first byte
    var b := ToByte(And(buf[s.start], m.first.mask));
    ReadHead(bs, s, m, w, bitsRemaining);
    value := ShiftLeft(b, bitsRemaining, w);
    // whole bytes
    for i := 1 to m.LastByteIndex()
      invariant Prefix(bs, s, i, value, bitsRemaining)
    {
      var v := buf[s.start + i];
      WholeByteLeft(bs, s, m, w, i, value, bitsRemaining);
      ghost var r := bitsRemaining;
      bitsRemaining := bitsRemaining - 8;
      ReadWhole(bs, s, m, w, i, value, r, bitsRemaining, v);
      value := Or(value, ShiftLeft(v, bitsRemaining, w));
    }
    // last byte
    var last := ToByte(ShiftRight(And(buf[s.start + m.LastByteIndex()], m.last.mask), m.last.padding));
    ReadTail(bs, s, m, value, bitsRemaining);
    value := Or(value, last);
  }

  /** `span.ReadAs<T>(numBits)` on a read-only span: the first numBits bits from its start. */
  method ReadAsBits(buf: array<byte>, s: Span, t: IntType, numBits: int) returns (r: Result<nat>)
    requires s.Valid() && s.Within(buf.Length) && numBits <= t.Width()
    ensures r.Ok? <==> 0 <= numBits && s.offset + numBits <= 8 * s.count
    ensures r.Err? ==> r.error == (if 8 * s.count < s.offset + numBits then Overflow else ArgumentOutOfRange)
    ensures r.Ok? ==> r.value == Bits(buf[..], s.Pos(), numBits)
  {
    var slice := Slice(s, 0, numBits);
    if slice.Err? {
      return Err(slice.error);
    }
    var value := ReadAs(buf, slice.value, t);
    return Ok(value);
  }
}
