/** Powers of two and the facts about Euclidean division the index arithmetic relies on. */
module Arith {

  function Pow2(n: nat): (r: nat)
    ensures r >= 1
  {
    if n == 0 then 1 else 2 * Pow2(n - 1)
  }

  lemma {:induction false} Pow2Add(a: nat, b: nat)
    ensures Pow2(a + b) == Pow2(a) * Pow2(b)
  {
    if a > 0 {
      Pow2Add(a - 1, b);
      assert Pow2(a + b) == 2 * Pow2(a - 1 + b);
    }
  }

  lemma Pow2Values()
    ensures Pow2(30) == 0x4000_0000
    ensures Pow2(31) == 0x8000_0000
    ensures Pow2(32) == 0x1_0000_0000
    ensures Pow2(64) == 0x1_0000_0000_0000_0000
  {
    assert Pow2(4) == 16;
    Pow2Add(4, 4);
    assert Pow2(8) == 0x100;
    Pow2Add(8, 8);
    assert Pow2(16) == 0x1_0000;
    Pow2Add(16, 16);
    assert Pow2(32) == 0x1_0000_0000;
    Pow2Add(32, 32);
    assert Pow2(32) == 2 * Pow2(31);
    assert Pow2(31) == 2 * Pow2(30);
  }

  lemma {:induction false} Pow2Monotone(a: nat, b: nat)
    requires a <= b
    ensures Pow2(a) <= Pow2(b)
  {
    if a < b {
      Pow2Monotone(a, b - 1);
    }
  }

  /** Quotient and remainder are determined by any decomposition with an in-range remainder. */
  lemma DivModUnique(x: int, d: int, q: int, r: int)
    requires d > 0 && 0 <= r < d && x == q * d + r
    ensures x / d == q && x % d == r
  {
    var q0, r0 := x / d, x % d;
    assert x == q0 * d + r0;
    if q0 > q {
      MulAtLeast(q0 - q, d);
    } else if q0 < q {
      MulAtLeast(q - q0, d);
    }
  }

  lemma MulAtLeast(a: int, d: int)
    requires a >= 1 && d > 0
    ensures a * d >= d
  {
    assert a * d == (a - 1) * d + d;
  }

  lemma MulNonNegative(a: int, d: int)
    requires a >= 0 && d >= 0
    ensures a * d >= 0
  {
  }

  lemma MulMonotone(a: int, b: int, m: int)
    requires a <= b && 0 <= m
    ensures a * m <= b * m
  {
    MulNonNegative(b - a, m);
    assert b * m - a * m == (b - a) * m;
  }

  lemma MulStrict(a: int, b: int, m: int)
    requires a < b && 0 < m
    ensures a * m + m <= b * m
  {
    MulMonotone(a + 1, b, m);
    assert (a + 1) * m == a * m + m;
  }

  lemma DivModAddMultiple(x: int, k: int, d: int)
    requires d > 0
    ensures (k * d + x) / d == k + x / d
    ensures (k * d + x) % d == x % d
  {
    assert k * d + x == (k + x / d) * d + x % d;
    DivModUnique(k * d + x, d, k + x / d, x % d);
  }

  /** Reducing modulo a multiple of `a` keeps the residue modulo `a`. */
  lemma ModOfMod(x: int, a: int, b: int)
    requires a > 0 && b > 0
    ensures (x % (a * b)) % a == x % a
  {
    var q := x / (a * b);
    assert x == (q * b) * a + x % (a * b);
    DivModAddMultiple(x % (a * b), q * b, a);
  }

  /** One bit off the bottom: `x mod 2k` from `x div 2 mod k` and the low bit. */
  lemma ModDouble(x: nat, k: nat)
    requires k > 0
    ensures x / (2 * k) == (x / 2) / k
    ensures x % (2 * k) == 2 * ((x / 2) % k) + x % 2
  {
    var h := x / 2;
    assert h == (h / k) * k + h % k;
    assert x == (h / k) * (2 * k) + (2 * (h % k) + x % 2);
    DivModUnique(x, 2 * k, h / k, 2 * (h % k) + x % 2);
  }

  /** Floor division of a negative number by a positive one stays negative and no smaller. */
  lemma DivOfNegative(x: int, d: int)
    requires x < 0 && d > 0
    ensures x <= x / d < 0
  {
    var q := x / d;
    assert x == q * d + x % d;
    if q >= 0 {
      MulNonNegative(q, d);
    } else if q < x {
      MulAtLeast(d, -(q + 1));
    }
  }

  lemma DivShrinks(x: int, d: int)
    requires x >= 0 && d > 0
    ensures 0 <= x / d <= x
  {
    var q := x / d;
    assert x == q * d + x % d;
    if q >= 1 {
      MulAtLeast(d, q);
    } else {
      MulNonNegative(-q, d);
    }
  }
}
