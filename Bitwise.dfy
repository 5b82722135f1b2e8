/**
 * Integer bit operations as C# performs them on non-negative values: `&`, `|`,
 * `<<`, `>>` and `~` restricted to one byte. Everything is stated on unbounded
 * naturals; a bit of `x` is `BitOf(x, j)`, bit 0 being the least significant.
 * Every operator comes with a lemma saying what it does to each bit, so that
 * byte-level code can be reasoned about one bit at a time.
 */
module Bitwise {

  /** 2 to the power n. */
  function Pow2(n: nat): (r: nat)
    ensures r >= 1
  {
    if n == 0 then 1 else 2 * Pow2(n - 1)
  }

  /** Bit j of x (0 or 1), counting from the least significant bit. */
  function BitOf(x: nat, j: nat): (b: nat)
    ensures b <= 1
  {
    if j == 0 then x % 2 else BitOf(x / 2, j - 1)
  }

  /** C#'s `x & y` on non-negative integers. */
  function And(x: nat, y: nat): (r: nat)
    ensures r <= x && r <= y
  {
    if x == 0 || y == 0 then 0 else 2 * And(x / 2, y / 2) + (if x % 2 == 1 && y % 2 == 1 then 1 else 0)
  }

  /** C#'s `x | y` on non-negative integers. */
  function Or(x: nat, y: nat): (r: nat)
    ensures x <= r && y <= r
    decreases x + y
  {
    if x == 0 then y
    else if y == 0 then x
    else 2 * Or(x / 2, y / 2) + (if x % 2 == 1 || y % 2 == 1 then 1 else 0)
  }

  /** `~m & 0xFF` for a byte m: the complement within one byte. */
  function Not8(m: nat): (r: nat)
    requires m < 256
    ensures r < 256
  {
    255 - m
  }

  /** `x << k` in an integer type `width` bits wide: bits shifted past the top are lost. */
  function ShiftLeft(x: nat, k: nat, width: nat): (r: nat)
    ensures r < Pow2(width)
  {
    (x * Pow2(k)) % Pow2(width)
  }

  /** `x << k` on a value held in a wider type, so that no bit is lost (a byte promoted to int). */
  function Shl(x: nat, k: nat): nat
  {
    x * Pow2(k)
  }

  /** `x >> k` on a non-negative value. */
  function ShiftRight(x: nat, k: nat): (r: nat)
    ensures r <= x
  {
    DivAtMost(x, Pow2(k));
    x / Pow2(k)
  }

  /** CastHelpers.ToByte: the low byte of a value. */
  function ToByte(x: nat): (r: nat)
    ensures r < 256
  {
    x % 256
  }

  // ---------------------------------------------------------------------
  // Arithmetic facts

  lemma Pow2Add(a: nat, b: nat)
    ensures Pow2(a + b) == Pow2(a) * Pow2(b)
  {
    if a > 0 {
      Pow2Add(a - 1, b);
      assert Pow2(a + b) == 2 * Pow2(a - 1 + b);
    }
  }

  lemma Pow2Mono(a: nat, b: nat)
    requires a <= b
    ensures Pow2(a) <= Pow2(b)
  {
    if a < b {
      Pow2Mono(a, b - 1);
    }
  }

  lemma Pow2Eight()
    ensures Pow2(8) == 256
  {
    assert Pow2(1) == 2;
    assert Pow2(2) == 4;
    assert Pow2(4) == 2 * 2 * Pow2(2);
    assert Pow2(8) == 2 * 2 * 2 * 2 * Pow2(4);
  }

  /** Division and remainder are determined by any decomposition x == q * d + r with 0 <= r < d. */
  lemma DivModUnique(x: int, d: int, q: int, r: int)
    requires d > 0 && 0 <= r < d && x == q * d + r
    ensures x / d == q && x % d == r
  {
    var q', r' := x / d, x % d;
    assert x == q' * d + r';
    if q' > q {
      assert (q' - q) * d == r - r';
      MulAtLeast(q' - q, d);
    } else if q' < q {
      assert (q - q') * d == r' - r;
      MulAtLeast(q - q', d);
    }
  }

  lemma MulAtLeast(a: int, d: int)
    requires a >= 1 && d > 0
    ensures a * d >= d
  {
  }

  lemma DivDiv(x: nat, a: nat, b: nat)
    requires a > 0 && b > 0
    ensures x / (a * b) == (x / a) / b
  {
    var q, r := x / a, x % a;
    var q2, r2 := q / b, q % b;
    assert x == a * q + r;
    assert q == b * q2 + r2;
    assert x == (a * b) * q2 + (a * r2 + r) by {
      assert a * q == a * (b * q2) + a * r2;
    }
    assert a * r2 <= a * (b - 1) by { MulMono(a, r2, b - 1); }
    assert a * (b - 1) == a * b - a;
    DivModUnique(x, a * b, q2, a * r2 + r);
  }

  /** One more group of n is n more. */
  lemma MulSucc(i: nat, n: nat)
    ensures i * n >= 0 && (i + 1) * n == i * n + n
  {
  }

  lemma MulPred(c: nat, m: nat, n: nat)
    requires c == m + 1
    ensures m * n >= 0 && c * n == m * n + n
  {
  }

  lemma MulMono(a: nat, x: nat, y: nat)
    requires x <= y
    ensures a * x <= a * y
  {
  }

  /** Dividing a non-negative value by a positive one gives a value between 0 and it. */
  lemma DivAtMost(x: nat, d: nat)
    requires d > 0
    ensures 0 <= x / d <= x
  {
    var q, r := x / d, x % d;
    assert x == q * d + r && 0 <= r < d;
    if q < 0 {
      MulNegative(q, d);
    } else if q > x {
      MulMono(q, 1, d);
    }
  }

  lemma MulNegative(q: int, d: int)
    requires q < 0 && d > 0
    ensures q * d <= -d
  {
    MulAtLeast(-q, d);
    assert q * d == -((-q) * d);
  }

  lemma ModOfSmall(x: nat, m: nat)
    requires x < m
    ensures x % m == x
  {
    DivModUnique(x, m, 0, x);
  }

  // ---------------------------------------------------------------------
  // Bits of values

  /** A value below 2^j has no bit j or higher set. */
  lemma {:induction false} BitOfSmall(x: nat, j: nat)
    requires x < Pow2(j)
    ensures BitOf(x, j) == 0
  {
    if j > 0 {
      BitOfSmall(x / 2, j - 1);
    }
  }

  /** Two values below 2^n with the same n low bits are equal. */
  lemma {:induction false} BitsDetermine(x: nat, y: nat, n: nat)
    requires x < Pow2(n) && y < Pow2(n)
    requires forall j :: 0 <= j < n ==> BitOf(x, j) == BitOf(y, j)
    ensures x == y
  {
    if n > 0 {
      assert BitOf(x, 0) == BitOf(y, 0);
      forall j | 0 <= j < n - 1
        ensures BitOf(x / 2, j) == BitOf(y / 2, j)
      {
        assert BitOf(x, j + 1) == BitOf(y, j + 1);
      }
      BitsDetermine(x / 2, y / 2, n - 1);
    }
  }

  lemma {:induction false} BitOfAnd(x: nat, y: nat, j: nat)
    ensures BitOf(And(x, y), j) == if BitOf(x, j) == 1 && BitOf(y, j) == 1 then 1 else 0
    decreases j
  {
    if x == 0 || y == 0 {
      BitOfZero(j);
    } else if j > 0 {
      assert And(x, y) / 2 == And(x / 2, y / 2);
      BitOfAnd(x / 2, y / 2, j - 1);
    }
  }

  lemma {:induction false} BitOfZero(j: nat)
    ensures BitOf(0, j) == 0
  {
    if j > 0 {
      BitOfZero(j - 1);
    }
  }

  lemma {:induction false} BitOfOr(x: nat, y: nat, j: nat)
    ensures BitOf(Or(x, y), j) == if BitOf(x, j) == 1 || BitOf(y, j) == 1 then 1 else 0
    decreases j
  {
    if x == 0 {
      BitOfZero(j);
    } else if y == 0 {
      BitOfZero(j);
    } else if j > 0 {
      assert Or(x, y) / 2 == Or(x / 2, y / 2);
      BitOfOr(x / 2, y / 2, j - 1);
    }
  }

  /** Bit j of x / 2^k is bit k + j of x. */
  lemma {:induction false} BitOfShiftRight(x: nat, k: nat, j: nat)
    ensures BitOf(ShiftRight(x, k), j) == BitOf(x, k + j)
  {
    if k > 0 {
      DivDiv(x, 2, Pow2(k - 1));
      assert ShiftRight(x, k) == ShiftRight(x / 2, k - 1);
      BitOfShiftRight(x / 2, k - 1, j);
    }
  }

  /** Bit j of x * 2^k is bit j - k of x, and 0 below k. */
  lemma {:induction false} BitOfShiftLeft(x: nat, k: nat, j: nat)
    ensures BitOf(x * Pow2(k), j) == if j >= k then BitOf(x, j - k) else 0
  {
    if k > 0 {
      var y := x * Pow2(k - 1);
      assert x * Pow2(k) == 2 * y;
      if j == 0 {
      } else {
        assert (2 * y) / 2 == y;
        BitOfShiftLeft(x, k - 1, j - 1);
      }
    }
  }

  /** Bit j of x % 2^k is bit j of x below k, and 0 from k up. */
  lemma {:induction false} BitOfMod(x: nat, k: nat, j: nat)
    ensures BitOf(x % Pow2(k), j) == if j < k then BitOf(x, j) else 0
  {
    if j >= k {
      BitOfSmall(x % Pow2(k), k);
      Pow2Mono(k, j);
      BitOfSmall(x % Pow2(k), j);
    } else {
      var p := Pow2(k - 1);
      var q, r := (x / 2) / p, (x / 2) % p;
      assert x == 2 * (x / 2) + x % 2;
      assert x / 2 == q * p + r;
      assert x == q * (2 * p) + (2 * r + x % 2);
      DivModUnique(x, 2 * p, q, 2 * r + x % 2);
      assert x % Pow2(k) == 2 * r + x % 2;
      if j > 0 {
        assert (2 * r + x % 2) / 2 == r;
        BitOfMod(x / 2, k - 1, j - 1);
      }
    }
  }

  /** 2^k - 1 has exactly the bits below k set. */
  lemma {:induction false} BitOfLowMask(k: nat, j: nat)
    ensures BitOf(Pow2(k) - 1, j) == if j < k then 1 else 0
  {
    if k == 0 {
      BitOfZero(j);
    } else if j > 0 {
      assert (Pow2(k) - 1) / 2 == Pow2(k - 1) - 1;
      BitOfLowMask(k - 1, j - 1);
    }
  }

  /** The complement of a value below 2^n within n bits flips each of its n bits. */
  lemma {:induction false} BitOfComplement(m: nat, n: nat, j: nat)
    requires m < Pow2(n) && j < n
    ensures BitOf(Pow2(n) - 1 - m, j) == 1 - BitOf(m, j)
  {
    var c := Pow2(n) - 1 - m;
    if j > 0 {
      assert c / 2 == Pow2(n - 1) - 1 - m / 2;
      BitOfComplement(m / 2, n - 1, j - 1);
    }
  }

  lemma BitOfNot8(m: nat, j: nat)
    requires m < 256 && j < 8
    ensures BitOf(Not8(m), j) == 1 - BitOf(m, j)
  {
    Pow2Eight();
    BitOfComplement(m, 8, j);
  }

  /** Values below 2^8 have no bits at 8 or above. */
  lemma ByteHighBits(x: nat, j: nat)
    requires x < 256 && j >= 8
    ensures BitOf(x, j) == 0
  {
    Pow2Eight();
    Pow2Mono(8, j);
    BitOfSmall(x, j);
  }

  // ---------------------------------------------------------------------
  // Whole-value consequences

  /** `x & m`, with m + 1 a power of two 2^k, is x modulo 2^k. */
  lemma AndMask(x: nat, k: nat, m: nat)
    requires m + 1 == Pow2(k)
    ensures And(x, m) == x % Pow2(k)
  {
    AndLowMask(x, k);
  }

  lemma AndLowMask(x: nat, k: nat)
    ensures And(x, Pow2(k) - 1) == x % Pow2(k)
  {
    var n := x + k;
    Pow2Mono(k, n);
    assert x < Pow2(n) by { ValueBelowPow2(x); Pow2Mono(x, n); }
    forall j | 0 <= j < n
      ensures BitOf(And(x, Pow2(k) - 1), j) == BitOf(x % Pow2(k), j)
    {
      BitOfAnd(x, Pow2(k) - 1, j);
      BitOfLowMask(k, j);
      BitOfMod(x, k, j);
    }
    BitsDetermine(And(x, Pow2(k) - 1), x % Pow2(k), n);
  }

  lemma {:induction false} ValueBelowPow2(x: nat)
    ensures x < Pow2(x)
  {
    if x > 0 {
      ValueBelowPow2(x - 1);
    }
  }

  /** Or of two values below 2^n stays below 2^n. */
  lemma {:induction false} OrBelow(x: nat, y: nat, n: nat)
    requires x < Pow2(n) && y < Pow2(n)
    ensures Or(x, y) < Pow2(n)
    decreases x + y
  {
    if x != 0 && y != 0 {
      OrBelow(x / 2, y / 2, n - 1);
    }
  }

  /**
   * When y fits below 2^k and x is a multiple of 2^k, `x | y` is `x + y`:
   * the two values have no bit in common.
   */
  lemma {:induction false} OrDisjoint(hi: nat, k: nat, lo: nat)
    requires lo < Pow2(k)
    ensures Or(hi * Pow2(k), lo) == hi * Pow2(k) + lo
    decreases k
  {
    var x := hi * Pow2(k);
    if x == 0 || lo == 0 {
    } else {
      assert k > 0;
      var x' := hi * Pow2(k - 1);
      assert x == 2 * x';
      assert x / 2 == x' && x % 2 == 0;
      OrDisjoint(hi, k - 1, lo / 2);
      assert Or(x, lo) == 2 * (x' + lo / 2) + lo % 2;
    }
  }

  // ---------------------------------------------------------------------
  // Byte masks

  /** The low byte of 255 * P, for 1 <= P <= 256, is 256 - P. */
  lemma MulByteMod(p: nat)
    requires 1 <= p <= 256
    ensures (255 * p) % 256 == 256 - p
  {
    DivModUnique(255 * p, 256, p - 1, 256 - p);
  }

  /** The byte with bits k..7 set and bits 0..k-1 clear. */
  function HighMask(k: nat): (m: nat)
    requires k <= 8
    ensures m < 256 && m + Pow2(k) == 256
  {
    Pow2Mono(k, 8);
    Pow2Eight();
    256 - Pow2(k)
  }

  /** `(0xFF << k) & 0xFF` is the byte with its low k bits clear. */
  lemma HighByteMask(k: nat)
    requires k <= 8
    ensures And(255 * Pow2(k), 255) == HighMask(k)
  {
    var n := 8;
    Pow2Eight();
    AndLowMask(255 * Pow2(k), n);
    Pow2Mono(k, n);
    MulByteMod(Pow2(k));
  }

  /** `~(0xFF << k) & 0xFF` is 2^k - 1: the byte with only its low k bits set. */
  lemma LowByteMask(k: nat)
    requires k <= 8
    ensures Not8(And(255 * Pow2(k), 255)) + 1 == Pow2(k)
  {
    HighByteMask(k);
  }

  /** Among the bits of a byte, HighMask(p) has exactly the bits p..7 set. */
  lemma BitOfHighMask(p: nat, j: nat)
    requires p <= 8 && j < 8
    ensures BitOf(HighMask(p), j) == if j >= p then 1 else 0
  {
    var n := 8;
    Pow2Eight();
    Pow2Mono(p, n);
    assert 256 - Pow2(p) == Pow2(n) - 1 - (Pow2(p) - 1);
    BitOfComplement(Pow2(p) - 1, n, j);
    BitOfLowMask(p, j);
  }

  /** Clearing the low p bits of a byte and shifting right by p is shifting right by p. */
  lemma AndHighMask(x: nat, p: nat)
    requires x < 256 && p <= 8
    ensures ShiftRight(And(x, HighMask(p)), p) == ShiftRight(x, p)
  {
    var n := 8;
    Pow2Eight();
    var y, z := ShiftRight(And(x, HighMask(p)), p), ShiftRight(x, p);
    forall j | 0 <= j < n
      ensures BitOf(y, j) == BitOf(z, j)
    {
      AndHighMaskBit(x, p, j);
    }
    BitsDetermine(y, z, n);
  }

  lemma AndHighMaskBit(x: nat, p: nat, j: nat)
    requires x < 256 && p <= 8
    ensures BitOf(ShiftRight(And(x, HighMask(p)), p), j) == BitOf(ShiftRight(x, p), j)
  {
    var m := HighMask(p);
    BitOfShiftRight(And(x, m), p, j);
    BitOfShiftRight(x, p, j);
    BitOfAnd(x, m, p + j);
    if p + j < 8 {
      BitOfHighMask(p, p + j);
    } else {
      ByteHighBits(x, p + j);
    }
  }

  // ---------------------------------------------------------------------
  // Shifts that lose no bits

  /** b < P makes b * Q < P * Q for Q > 0. */
  lemma MulBelow(b: nat, p: nat, q: nat)
    requires b < p && q > 0
    ensures b * q < p * q
  {
    MulMono(q, b, p - 1);
    assert q * (p - 1) == p * q - q;
  }

  /** Shifting a k-bit value left by r inside a w-bit type loses nothing when k + r <= w. */
  lemma ShiftNoWrap(b: nat, k: nat, r: nat, w: nat)
    requires b < Pow2(k) && k + r <= w
    ensures ShiftLeft(b, r, w) == b * Pow2(r)
    ensures b * Pow2(r) < Pow2(k + r)
  {
    Pow2Add(k, r);
    MulBelow(b, Pow2(k), Pow2(r));
    Pow2Mono(k + r, w);
    ModOfSmall(b * Pow2(r), Pow2(w));
  }

  /** Placing b below v shifted by n, then both shifted by k. */
  lemma ShiftedConcat(v: nat, b: nat, n: nat, k: nat)
    ensures v * Pow2(n + k) + b * Pow2(k) == (v * Pow2(n) + b) * Pow2(k)
  {
    var p, q := Pow2(n), Pow2(k);
    Pow2Add(n, k);
    MulAssoc(v, p, q);
    MulAddRight(v * p, b, q);
  }

  lemma MulAssoc(x: int, y: int, z: int)
    ensures x * (y * z) == (x * y) * z
  {
  }

  lemma MulAddRight(x: int, y: int, z: int)
    ensures (x + y) * z == x * z + y * z
  {
  }

  /** Keeping the low w bits and then the low n of those keeps the low n bits, for any integer. */
  lemma ModPow2Mod(x: int, n: nat, w: nat)
    requires n <= w
    ensures (x % Pow2(w)) % Pow2(n) == x % Pow2(n)
  {
    Pow2Add(n, w - n);
    ModMulMod(x, Pow2(n), Pow2(w - n), Pow2(w));
  }

  lemma ModMulMod(x: int, p: nat, q: nat, m: nat)
    requires p > 0 && q > 0 && m == p * q
    ensures (x % m) % p == x % p
  {
    var a, r := x / m, x % m;
    var b, e := r / p, r % p;
    assert x == a * m + r;
    assert r == b * p + e;
    assert a * m == (a * q) * p;
    DivModUnique(x, p, a * q + b, e);
  }
}
