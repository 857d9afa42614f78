/**
 * Java's fixed-width integers over Dafny's unbounded `int`: the `int` and `long` ranges, the
 * narrowing casts `(int)` and `(long)` wrap-around, and the bitwise `&` and `>>>` operators the
 * partition arithmetic uses.
 */
module JavaInts {
  import opened Arith

  /** `Integer.MAX_VALUE`. */
  const IntMax: int := 0x7fff_ffff

  const Int32Modulus: int := 0x1_0000_0000
  const Int64Modulus: int := 0x1_0000_0000_0000_0000

  /** `Long.MIN_VALUE` and `Long.MAX_VALUE`. */
  const LongMin: int := -0x8000_0000_0000_0000
  const LongMax: int := 0x7fff_ffff_ffff_ffff

  type int32 = x: int | -0x8000_0000 <= x <= 0x7fff_ffff
  type int64 = x: int | -0x8000_0000_0000_0000 <= x <= 0x7fff_ffff_ffff_ffff

  /** The cast `(int) x`: keeps the low 32 bits and reads them as two's complement. */
  function ToInt32(x: int): (r: int32)
    ensures -0x8000_0000 <= x <= 0x7fff_ffff ==> r == x
  {
    (x + 0x8000_0000) % Int32Modulus - 0x8000_0000
  }

  /** Wrap-around of a `long` result: keeps the low 64 bits as two's complement. */
  function ToInt64(x: int): (r: int64)
    ensures LongMin <= x <= LongMax ==> r == x
  {
    (x + 0x8000_0000_0000_0000) % Int64Modulus - 0x8000_0000_0000_0000
  }

  /** The cast changes a value by a multiple of `2^32`. */
  lemma ToInt32Wraps(x: int)
    ensures (x - ToInt32(x)) % Int32Modulus == 0
  {
    var k := (x + 0x8000_0000) / Int32Modulus;
    assert x - ToInt32(x) == k * Int32Modulus;
    MultipleHasNoResidue(x - ToInt32(x), k, Int32Modulus);
  }

  /** The wrap changes a value by a multiple of `2^64`. */
  lemma ToInt64Wraps(x: int)
    ensures (x - ToInt64(x)) % Int64Modulus == 0
  {
    var k := (x + 0x8000_0000_0000_0000) / Int64Modulus;
    assert x - ToInt64(x) == k * Int64Modulus;
    MultipleHasNoResidue(x - ToInt64(x), k, Int64Modulus);
  }

  /** Bitwise AND of two non-negative integers, one bit at a time from the least significant. */
  function And(a: nat, b: nat): (r: nat)
    ensures r <= a
  {
    if a == 0 || b == 0 then 0
    else 2 * And(a / 2, b / 2) + (if a % 2 == 1 && b % 2 == 1 then 1 else 0)
  }

  /** Java's `&` on two `int`s: the AND of the two 32-bit patterns, read back as an `int`. */
  function And32(x: int32, y: int32): int32 {
    ToInt32(And(x % Int32Modulus, y % Int32Modulus))
  }

  /** Logical right shift of a non-negative integer: `s` halvings. */
  function ShiftRight(u: nat, s: nat): nat {
    if s == 0 then u else ShiftRight(u / 2, s - 1)
  }

  /** Java's `>>>` on a `long`: the 64-bit pattern shifted right with zero fill; the distance is taken modulo 64. */
  function UShr64(x: int64, s: nat): int64 {
    ToInt64(ShiftRight(x % Int64Modulus, s % 64))
  }

  lemma {:induction false} ShiftRightIsDivision(u: nat, s: nat)
    ensures ShiftRight(u, s) == u / Pow2(s)
  {
    if s > 0 {
      ShiftRightIsDivision(u / 2, s - 1);
      ModDouble(u, Pow2(s - 1));
    }
  }

  /** Masking with `2^n - 1` keeps the low `n` bits. */
  lemma {:induction false} AndLowMask(u: nat, n: nat)
    ensures And(u, Pow2(n) - 1) == u % Pow2(n)
  {
    if n == 0 {
      assert Pow2(n) == 1;
    } else if u == 0 {
      assert And(u, Pow2(n) - 1) == 0;
    } else {
      var k := Pow2(n - 1);
      assert Pow2(n) - 1 == 2 * k - 1;
      AndLowMask(u / 2, n - 1);
      AndOddMask(u, k);
      LowBitsStep(u, k, And(u / 2, k - 1));
    }
  }

  /** Keeping the low bits of `u / 2` and putting back the lowest bit of `u` keeps the low bits of `u`. */
  lemma LowBitsStep(u: nat, k: nat, a: int)
    requires k >= 1 && a == (u / 2) % k
    ensures 2 * a + u % 2 == u % (2 * k)
  {
    ModDouble(u, k);
  }

  lemma AndOddMask(u: nat, k: nat)
    requires u > 0 && k >= 1
    ensures And(u, 2 * k - 1) == 2 * And(u / 2, k - 1) + u % 2
  {
    var m := 2 * k - 1;
    assert m / 2 == k - 1 && m % 2 == 1;
  }

  /** Two values with the same low 32 bits cast to the same `int`. */
  lemma ToInt32Residue(x: int, y: int)
    requires (x - y) % Int32Modulus == 0
    ensures ToInt32(x) == ToInt32(y)
  {
    var k := (x - y) / Int32Modulus;
    assert x + 0x8000_0000 == k * Int32Modulus + (y + 0x8000_0000);
    DivModAddMultiple(y + 0x8000_0000, k, Int32Modulus);
  }

  /** Two values with the same low 64 bits wrap to the same `long`. */
  lemma ToInt64Residue(x: int, y: int)
    requires (x - y) % Int64Modulus == 0
    ensures ToInt64(x) == ToInt64(y)
  {
    var k := (x - y) / Int64Modulus;
    assert x + 0x8000_0000_0000_0000 == k * Int64Modulus + (y + 0x8000_0000_0000_0000);
    DivModAddMultiple(y + 0x8000_0000_0000_0000, k, Int64Modulus);
  }

  /** `(int) x & (2^p - 1)` is `x mod 2^p`, whatever the high bits of `x`. */
  lemma MaskedLowBits(x: int, p: nat)
    requires p < 32
    ensures Pow2(p) - 1 <= 0x7fff_ffff
    ensures And32(ToInt32(x), Pow2(p) - 1) == x % Pow2(p)
  {
    Pow2Values();
    Pow2Monotone(p, 31);
    Pow2Add(p, 32 - p);
    var d := Pow2(p);
    var r := ToInt32(x);
    ToInt32Wraps(x);
    var mask: int32 := d - 1;
    var k := (x - r) / Int32Modulus;
    assert x == k * Int32Modulus + r;
    var lo := r % Int32Modulus;
    assert lo == x % Int32Modulus by {
      DivModAddMultiple(r, k, Int32Modulus);
    }
    assert mask % Int32Modulus == mask by {
      DivModUnique(mask, Int32Modulus, 0, mask);
    }
    assert And32(r, mask) == ToInt32(And(lo, mask));
    AndLowMask(lo, p);
    assert And(lo, mask) == lo % d;
    assert lo % d == x % d by {
      ModOfMod(x, d, Pow2(32 - p));
    }
  }

  /** On a non-negative `long`, `>>>` by `s < 64` is division by `2^s`. */
  lemma UShrNonNegative(x: int64, s: nat)
    requires x >= 0 && s < 64
    ensures UShr64(x, s) == x / Pow2(s)
  {
    assert x % Int64Modulus == x by {
      DivModUnique(x, Int64Modulus, 0, x);
    }
    assert s % 64 == s;
    DivShrinks(x, Pow2(s));
    ShiftRightIsDivision(x, s);
  }

  lemma MultipleHasNoResidue(a: int, k: int, m: int)
    requires m > 0 && a == k * m
    ensures a % m == 0
  {
    DivModAddMultiple(0, k, m);
  }

  /** The unsigned quotient of a negative `long`: its 64-bit pattern is `x + 2^64`. */
  lemma UnsignedQuotientOfNegative(x: int64, s: nat)
    requires x < 0 && s <= 64
    ensures ShiftRight(x % Int64Modulus, s) == Pow2(64 - s) + x / Pow2(s)
  {
    Pow2Values();
    Pow2Add(64 - s, s);
    assert x % Int64Modulus == Pow2(64 - s) * Pow2(s) + x by {
      DivModUnique(x, Int64Modulus, -1, x + Int64Modulus);
    }
    DivModAddMultiple(x, Pow2(64 - s), Pow2(s));
    ShiftRightIsDivision(x % Int64Modulus, s);
  }

  /** Narrowing to 32 bits forgets any multiple of `2^(64-s)` for `s <= 32`, and any `long` wrap. */
  lemma ToInt32DropsHighBits(y: int, s: nat)
    requires s <= 32
    ensures ToInt32(ToInt64(Pow2(64 - s) + y)) == ToInt32(y)
  {
    var h := Pow2(64 - s);
    ToInt32OfLongWrap(h + y);
    assert h % Int32Modulus == 0 by {
      Pow2Values();
      Pow2Add(32 - s, 32);
      MultipleHasNoResidue(h, Pow2(32 - s), Int32Modulus);
    }
    ShiftByMultiple(h, y);
  }

  lemma ToInt32OfLongWrap(q: int)
    ensures ToInt32(ToInt64(q)) == ToInt32(q)
  {
    var w := ToInt64(q);
    ToInt64Wraps(q);
    ModOfMod(q - w, Int32Modulus, Int32Modulus);
    ToInt32Residue(q, w);
  }

  lemma ShiftByMultiple(h: int, y: int)
    requires h % Int32Modulus == 0
    ensures ToInt32(h + y) == ToInt32(y)
  {
    ToInt32Residue(h + y, y);
  }

  lemma UShrOfNegative(x: int64, s: nat)
    requires x < 0 && s <= 32
    ensures UShr64(x, s) == ToInt64(Pow2(64 - s) + x / Pow2(s))
  {
    assert s % 64 == s;
    UnsignedQuotientOfNegative(x, s);
  }

  lemma NarrowShifted(u: int64, s: nat, y: int)
    requires s <= 32 && u == ToInt64(Pow2(64 - s) + y)
    requires -0x8000_0000 <= y <= 0x7fff_ffff
    ensures ToInt32(u) == y
  {
    ToInt32DropsHighBits(y, s);
  }

  /**
   * On a negative `long` whose magnitude fits in an `int`, `(int)(x >>> s)` with `s <= 32` is
   * negative: the shift brings the sign bits down into bits 32..63, the narrowing cast drops
   * them, and what is left is the floor quotient `x / 2^s`.
   */
  lemma UShrNegativeToInt(x: int64, s: nat)
    requires -0x8000_0000 <= x < 0 && s <= 32
    ensures ToInt32(UShr64(x, s)) < 0
  {
    var y := x / Pow2(s);
    UShrOfNegative(x, s);
    DivOfNegative(x, Pow2(s));
    var u := UShr64(x, s);
    assert u == ToInt64(Pow2(64 - s) + y);
    NarrowShifted(u, s, y);
  }
}
