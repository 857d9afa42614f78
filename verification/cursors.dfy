/**
 * The cursor walk the structured-array tests use to visit every element of an N-dimensional
 * array: a vector of per-dimension `long` indices advanced like an odometer, from the innermost
 * (last) dimension outwards, a dimension that reaches its length wrapping to zero and carrying
 * into the next one out.
 *
 * `Flat` reads a cursor as a mixed-radix number (the row-major element number); the lemmas
 * show that one increment adds one to it, so the walk visits every in-bounds cursor exactly
 * once, in increasing row-major order, and comes back to all zeros after `Product(lengths)`
 * steps.
 */
module Cursors {
  import opened Arith
  import opened JavaInts

  /** The total element count: the product of the dimension lengths. */
  function Product(lengths: seq<int64>): int {
    if |lengths| == 0 then 1 else Product(lengths[..|lengths| - 1]) * lengths[|lengths| - 1]
  }

  /** Dimension lengths an array can be created with: none negative. */
  predicate ValidLengths(lengths: seq<int64>) {
    forall d :: 0 <= d < |lengths| ==> 0 <= lengths[d]
  }

  predicate InBounds(c: seq<int64>, lengths: seq<int64>) {
    |c| == |lengths| && forall d :: 0 <= d < |c| ==> 0 <= c[d] < lengths[d]
  }

  /** `new long[n]`: the starting cursor. */
  function Zeros(n: nat): (r: seq<int64>)
    ensures |r| == n && forall d :: 0 <= d < n ==> r[d] == 0
  {
    seq(n, _ => 0)
  }

  /** `++x` on a `long`: one more, wrapping from `Long.MAX_VALUE` to `Long.MIN_VALUE`. */
  function Inc64(x: int64): int64 {
    if x < LongMax then x + 1 else LongMin
  }

  /** The explicit wrap agrees with keeping the low 64 bits of `x + 1`. */
  lemma Inc64Wraps(x: int64)
    ensures Inc64(x) == ToInt64(x as int + 1)
  {
  }

  /** The row-major element number of a cursor. */
  function Flat(c: seq<int64>, lengths: seq<int64>): (r: int)
    requires |c| == |lengths|
    ensures InBounds(c, lengths) ==> 0 <= r < Product(lengths)
  {
    if |c| == 0 then 0
    else
      var k := |c| - 1;
      var f := Flat(c[..k], lengths[..k]);
      DigitStep(f, Product(lengths[..k]), c[k], lengths[k]);
      f * lengths[k] + c[k]
  }

  /** Appending a digit `x < m` to a number below `p` gives a number below `p * m`. */
  lemma DigitStep(f: int, p: int, x: int, m: int)
    ensures 0 <= f < p && 0 <= x < m ==> 0 <= f * m + x < p * m
  {
    if 0 <= f < p && 0 <= x < m {
      MulNonNegative(f, m);
      MulStrict(f, p, m);
    }
  }

  /**
   * One pass of the increment loop: `++cursors[d]` on a `long`; stop if it is below
   * `lengths[d]`, otherwise reset it to zero and move one dimension out. When every
   * dimension wraps, the result is all zeros.
   */
  function Next(c: seq<int64>, lengths: seq<int64>): (r: seq<int64>)
    requires |c| == |lengths|
    ensures |r| == |c|
  {
    if |c| == 0 then []
    else
      var k := |c| - 1;
      var bumped := Inc64(c[k]);
      if bumped < lengths[k] then c[..k] + [bumped] else Next(c[..k], lengths[..k]) + [0]
  }

  /** How many trailing dimensions wrap in one increment. */
  function Wrapped(c: seq<int64>, lengths: seq<int64>): (w: nat)
    requires |c| == |lengths|
    ensures w <= |c|
  {
    if |c| == 0 then 0
    else
      var k := |c| - 1;
      if Inc64(c[k]) < lengths[k] then 0 else 1 + Wrapped(c[..k], lengths[..k])
  }

  /** Distinct in-bounds cursors have distinct row-major numbers. */
  lemma {:induction false} FlatInjective(c: seq<int64>, e: seq<int64>, lengths: seq<int64>)
    requires InBounds(c, lengths) && InBounds(e, lengths)
    requires Flat(c, lengths) == Flat(e, lengths)
    ensures c == e
  {
    if |c| > 0 {
      var k := |c| - 1;
      var m := lengths[k];
      var fc, fe := Flat(c[..k], lengths[..k]), Flat(e[..k], lengths[..k]);
      DivModUnique(fc * m + c[k], m, fc, c[k]);
      DivModUnique(fe * m + e[k], m, fe, e[k]);
      FlatInjective(c[..k], e[..k], lengths[..k]);
      assert c == c[..k] + [c[k]] && e == e[..k] + [e[k]];
    }
  }

  /**
   * The increment keeps every dimension before the last non-wrapping one, adds one to that
   * dimension, and resets the wrapped dimensions after it to zero; if every dimension wraps,
   * all of them are reset.
   */
  lemma {:induction false} NextChangesSuffix(c: seq<int64>, lengths: seq<int64>)
    requires |c| == |lengths|
    ensures var w, n := Wrapped(c, lengths), |c|;
      && (w < n ==> Next(c, lengths) == c[..n - w - 1] + [Inc64(c[n - w - 1])] + Zeros(w))
      && (w == n ==> Next(c, lengths) == Zeros(n))
  {
    if |c| > 0 {
      var k := |c| - 1;
      if Inc64(c[k]) >= lengths[k] {
        NextChangesSuffix(c[..k], lengths[..k]);
        var w' := Wrapped(c[..k], lengths[..k]);
        assert Zeros(w') + [0] == Zeros(w' + 1);
        if w' < k {
          assert c[..k][..k - w' - 1] == c[..k - w' - 1];
        }
      } else {
        assert Next(c, lengths) == c[..k] + [Inc64(c[k])] + Zeros(0);
      }
    }
  }

  /**
   * The dimensions that wrap are exactly the trailing ones whose increment reaches their
   * length; the one before them does not reach its length.
   */
  lemma {:induction false} WrappedAreTrailing(c: seq<int64>, lengths: seq<int64>)
    requires |c| == |lengths|
    ensures var w, n := Wrapped(c, lengths), |c|;
      && (forall d :: n - w <= d < n ==> Inc64(c[d]) >= lengths[d])
      && (w < n ==> Inc64(c[n - w - 1]) < lengths[n - w - 1])
  {
    if |c| > 0 {
      var k := |c| - 1;
      if Inc64(c[k]) >= lengths[k] {
        WrappedAreTrailing(c[..k], lengths[..k]);
      }
    }
  }

  /**
   * One increment of an in-bounds cursor stays in bounds, and adds one to the row-major number,
   * except from the last element, whose successor is all zeros.
   */
  lemma {:induction false} NextFlat(c: seq<int64>, lengths: seq<int64>)
    requires InBounds(c, lengths)
    ensures Flat(c, lengths) + 1 <= Product(lengths)
    ensures InBounds(Next(c, lengths), lengths)
    ensures Flat(c, lengths) + 1 < Product(lengths) ==> Flat(Next(c, lengths), lengths) == Flat(c, lengths) + 1
    ensures Flat(c, lengths) + 1 == Product(lengths) ==> Next(c, lengths) == Zeros(|c|)
  {
    if |c| > 0 {
      var k := |c| - 1;
      if c[k] + 1 < lengths[k] {
        NextWithoutCarry(c, lengths);
      } else {
        NextFlat(c[..k], lengths[..k]);
        NextWithCarry(c, lengths);
      }
    }
  }

  /** The last dimension does not wrap: the row-major number goes up by one. */
  lemma NextWithoutCarry(c: seq<int64>, lengths: seq<int64>)
    requires InBounds(c, lengths) && |c| > 0 && c[|c| - 1] + 1 < lengths[|c| - 1]
    ensures InBounds(Next(c, lengths), lengths)
    ensures Flat(Next(c, lengths), lengths) == Flat(c, lengths) + 1 < Product(lengths)
  {
    var k := |c| - 1;
    var m := lengths[k];
    var f, p := Flat(c[..k], lengths[..k]), Product(lengths[..k]);
    var r := Next(c, lengths);
    assert r == c[..k] + [c[k] + 1];
    assert r[..k] == c[..k];
    MulStrict(f, p, m);
  }

  /** The last dimension wraps: the carry goes into the prefix, whose step is given. */
  lemma NextWithCarry(c: seq<int64>, lengths: seq<int64>)
    requires InBounds(c, lengths) && |c| > 0
    requires var k := |c| - 1; c[k] + 1 == lengths[k]
    requires var k := |c| - 1; var f := Flat(c[..k], lengths[..k]); var p := Product(lengths[..k]);
      && f + 1 <= p
      && InBounds(Next(c[..k], lengths[..k]), lengths[..k])
      && (f + 1 < p ==> Flat(Next(c[..k], lengths[..k]), lengths[..k]) == f + 1)
      && (f + 1 == p ==> Next(c[..k], lengths[..k]) == Zeros(k))
    ensures InBounds(Next(c, lengths), lengths)
    ensures Flat(c, lengths) + 1 < Product(lengths) ==> Flat(Next(c, lengths), lengths) == Flat(c, lengths) + 1
    ensures Flat(c, lengths) + 1 == Product(lengths) ==> Next(c, lengths) == Zeros(|c|)
  {
    var k := |c| - 1;
    var m := lengths[k];
    var f, p := Flat(c[..k], lengths[..k]), Product(lengths[..k]);
    var r', r := Next(c[..k], lengths[..k]), Next(c, lengths);
    assert r == r' + [0];
    assert r[..k] == r';
    CarryStep(f, p, m, Flat(c, lengths), Product(lengths));
    if f + 1 == p {
      assert r == Zeros(k + 1);
    }
  }

  /** With the last digit at `m - 1`, one more carries: the number becomes `(f + 1) * m`. */
  lemma CarryStep(f: int, p: int, m: int, flat: int, product: int)
    requires 0 <= f < p && 0 < m && flat == f * m + (m - 1) && product == p * m
    ensures flat + 1 == (f + 1) * m
    ensures f + 1 < p ==> flat + 1 < product
    ensures f + 1 == p ==> flat + 1 == product
  {
    assert (f + 1) * m == f * m + m;
    if f + 1 < p {
      MulStrict(f + 1, p, m);
    }
  }

  /** Cursors of a non-empty array: every length is positive, so all zeros is in bounds. */
  lemma {:induction false} ZerosInBounds(lengths: seq<int64>)
    requires ValidLengths(lengths) && Product(lengths) > 0
    ensures InBounds(Zeros(|lengths|), lengths) && Flat(Zeros(|lengths|), lengths) == 0
  {
    if |lengths| > 0 {
      var k := |lengths| - 1;
      var p := Product(lengths[..k]);
      if p <= 0 {
        MulNonNegative(-p, lengths[k]);
      } else if lengths[k] == 0 {
      }
      ZerosInBounds(lengths[..k]);
      assert Zeros(|lengths|)[..k] == Zeros(k);
    }
  }

  lemma {:induction false} ProductNonNegative(lengths: seq<int64>)
    requires ValidLengths(lengths)
    ensures Product(lengths) >= 0
  {
    if |lengths| > 0 {
      var k := |lengths| - 1;
      ProductNonNegative(lengths[..k]);
      MulNonNegative(Product(lengths[..k]), lengths[k]);
    }
  }

  /** Increments `cursors` in place, as the test's inner loop does. */
  method Increment(cursors: seq<int64>, lengths: seq<int64>) returns (next: seq<int64>)
    requires |cursors| == |lengths|
    ensures next == Next(cursors, lengths)
  {
    var n := |cursors|;
    next := cursors;
    var d := n - 1;
    assert cursors[..n] == cursors && lengths[..n] == lengths;
    while d >= 0
      invariant -1 <= d < n
      invariant next == cursors[..d + 1] + Zeros(n - d - 1)
      invariant Next(cursors, lengths) == Next(cursors[..d + 1], lengths[..d + 1]) + Zeros(n - d - 1)
    {
      NextOfPrefix(cursors, lengths, d);
      next := next[d := Inc64(next[d])];
      if next[d] < lengths[d] {
        break;
      }
      next := next[d := 0];
      assert [0] + Zeros(n - d - 1) == Zeros(n - d);
      d := d - 1;
    }
  }

  /** One step of `Next` on the first `d + 1` dimensions. */
  lemma NextOfPrefix(c: seq<int64>, lengths: seq<int64>, d: int)
    requires |c| == |lengths| && 0 <= d < |c|
    ensures Inc64(c[d]) < lengths[d] ==> Next(c[..d + 1], lengths[..d + 1]) == c[..d] + [Inc64(c[d])]
    ensures Inc64(c[d]) >= lengths[d] ==> Next(c[..d + 1], lengths[..d + 1]) == Next(c[..d], lengths[..d]) + [0]
  {
    assert c[..d + 1][..d] == c[..d] && lengths[..d + 1][..d] == lengths[..d];
  }

  /**
   * The test's outer loop: from all-zero cursors, visit `Product(lengths)` elements, incrementing
   * after each. Returns the cursors visited in order and the final cursors.
   */
  method Enumerate(lengths: seq<int64>) returns (visited: seq<seq<int64>>, cursors: seq<int64>)
    requires ValidLengths(lengths) && Product(lengths) <= LongMax
    ensures |visited| == Product(lengths)
    ensures forall k :: 0 <= k < |visited| ==> InBounds(visited[k], lengths) && Flat(visited[k], lengths) == k
    ensures forall c :: InBounds(c, lengths) ==> c in visited
    ensures cursors == Zeros(|lengths|)
  {
    ProductNonNegative(lengths);
    var total: int64 := Product(lengths);
    cursors := Zeros(|lengths|);
    if total > 0 {
      ZerosInBounds(lengths);
    }
    visited := [];
    var count: int64 := 0;
    while count < total
      invariant 0 <= count <= total
      invariant |visited| == count
      invariant forall k :: 0 <= k < count ==> InBounds(visited[k], lengths) && Flat(visited[k], lengths) == k
      invariant count < total ==> InBounds(cursors, lengths) && Flat(cursors, lengths) == count
      invariant count == total ==> cursors == Zeros(|lengths|)
    {
      NextFlat(cursors, lengths);
      visited := visited + [cursors];
      cursors := Increment(cursors, lengths);
      count := count + 1;
    }
    forall c | InBounds(c, lengths)
      ensures c in visited
    {
      FlatInjective(visited[Flat(c, lengths)], c, lengths);
    }
  }
}
