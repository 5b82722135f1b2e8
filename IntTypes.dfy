/**
 * The eight integer types the codecs are instantiated at. A value of such a
 * type is held by the span layer as its bit pattern: a natural number below
 * 2^width. Signed types read that pattern as two's complement.
 */
module IntTypes {
  import opened Bitwise

  datatype IntType = Int8 | UInt8 | Int16 | UInt16 | Int32 | UInt32 | Int64 | UInt64
  {
    /** sizeof(T) * 8. */
    function Width(): (w: nat)
      ensures 8 <= w <= 64 && w % 8 == 0
    {
      match this
      case Int8 | UInt8 => 8
      case Int16 | UInt16 => 16
      case Int32 | UInt32 => 32
      case Int64 | UInt64 => 64
    }

    predicate Signed() {
      this in {Int8, Int16, Int32, Int64}
    }

    /** The smallest value of the type (MinValue). */
    function Min(): int {
      if Signed() then -(Pow2(Width() - 1) as int) else 0
    }

    /** The largest value of the type (MaxValue). */
    function Max(): int {
      if Signed() then Pow2(Width() - 1) - 1 else Pow2(Width()) - 1
    }

    predicate InRange(x: int) {
      Min() <= x <= Max()
    }

    /** A bit pattern of this type. */
    predicate IsPattern(b: nat) {
      b < Pow2(Width())
    }
  }

  lemma HalfWidth(t: IntType)
    ensures t.Width() >= 1 && Pow2(t.Width()) == 2 * Pow2(t.Width() - 1)
  {
  }

  /** The bit pattern that stores x: x modulo 2^width. */
  function ToBits(t: IntType, x: int): (b: nat)
    ensures t.IsPattern(b)
    ensures t.InRange(x) && x >= 0 ==> b == x
    ensures t.InRange(x) && x < 0 ==> b == x + Pow2(t.Width())
  {
    var m := Pow2(t.Width());
    HalfWidth(t);
    WrapFacts(x, m);
    x % m
  }

  /** The pattern of x is x modulo 2^width, in range or not. */
  lemma ToBitsMod(t: IntType, x: int)
    ensures ToBits(t, x) == x % Pow2(t.Width())
  {
  }

  /** The value a bit pattern holds: two's complement for signed types. */
  function FromBits(t: IntType, b: nat): (x: int)
    requires t.IsPattern(b)
    ensures t.InRange(x)
    ensures x % Pow2(t.Width()) == b
  {
    var m, h := Pow2(t.Width()), Pow2(t.Width() - 1);
    HalfWidth(t);
    if t.Signed() && b >= h then
      ModOfNegative(b - m, m);
      b - m
    else
      ModOfSmall(b, m);
      b
  }

  lemma WrapFacts(x: int, m: nat)
    requires m > 0
    ensures 0 <= x < m ==> x % m == x
    ensures -(m as int) <= x < 0 ==> x % m == x + m
  {
    if 0 <= x < m {
      ModOfSmall(x, m);
    } else if -(m as int) <= x < 0 {
      ModOfNegative(x, m);
    }
  }

  lemma ModOfNegative(x: int, m: nat)
    requires -(m as int) <= x < 0
    ensures x % m == x + m
  {
    DivModUnique(x, m, -1, x + m);
  }

  /** Storing a value of the type and reading it back gives the value. */
  lemma FromToBits(t: IntType, x: int)
    requires t.InRange(x)
    ensures FromBits(t, ToBits(t, x)) == x
  {
    HalfWidth(t);
  }

  /** Reading a pattern and storing the value gives the pattern back. */
  lemma ToFromBits(t: IntType, b: nat)
    requires t.IsPattern(b)
    ensures ToBits(t, FromBits(t, b)) == b
  {
    HalfWidth(t);
    var x := FromBits(t, b);
    if x < 0 {
      DivModUnique(x, Pow2(t.Width()), -1, b);
    }
  }

  /** A pattern of fewer bits than the width is read as a non-negative value, even for signed types. */
  lemma NarrowIsNonNegative(t: IntType, b: nat, n: nat)
    requires n < t.Width() && b < Pow2(n)
    ensures t.IsPattern(b) && FromBits(t, b) == b
  {
    Pow2Mono(n, t.Width() - 1);
    HalfWidth(t);
  }
}
