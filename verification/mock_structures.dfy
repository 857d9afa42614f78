/**
 * The element type the structured-array tests build, the constructor-and-arguments locator
 * that builds each element from its cursor, and the loops that fill and check a built array.
 *
 * A structured array is represented here only by its elements in row-major order: the element
 * at cursor `c` is `elements[Flat(c, lengths)]`. How the array stores them is not part of
 * this model.
 */
module MockStructures {
  import opened Arith
  import opened JavaInts
  import opened Cursors

  /** A `MockStructure`: two `long` fields. */
  datatype MockStructure = MockStructure(index: int64, testValue: int64)

  /** The argument of `equals`: `null`, a `MockStructure`, or an object of another class. */
  datatype Object = Null | Mock(fields: MockStructure) | OtherClass

  /** `new MockStructure()`: the field initialisers `-1` and `Long.MIN_VALUE`. */
  function DefaultMock(): MockStructure {
    MockStructure(-1, LongMin)
  }

  /** `new MockStructure(src)`: copies both fields. */
  function CopyMock(src: MockStructure): MockStructure {
    MockStructure(src.index, src.testValue)
  }

  /**
   * `equals`: `false` for `null` and for objects of another class, otherwise a comparison of
   * `index` and `testValue`. The identity shortcut `this == o` is subsumed: an object has the
   * same fields as itself.
   */
  function Equals(self: MockStructure, o: Object): (r: bool)
    ensures r <==> o == Mock(self)
  {
    match o
    case Null => false
    case OtherClass => false
    case Mock(that) => self.index == that.index && self.testValue == that.testValue
  }

  /** A copy is equal to its source, and equality is reflexive and symmetric. */
  lemma CopyEqualsSource(src: MockStructure, other: MockStructure)
    ensures Equals(CopyMock(src), Mock(src)) && Equals(src, Mock(CopyMock(src)))
    ensures Equals(src, Mock(src))
    ensures Equals(src, Mock(other)) == Equals(other, Mock(src))
  {
  }

  /** `a + b` on two `long`s. */
  function AddLong(a: int64, b: int64): int64 {
    ToInt64(a as int + b as int)
  }

  /** The loop `for (long index : indexes) indexSum += index;` on `long`s. */
  function IndexSum(indexes: seq<int64>): int64 {
    if |indexes| == 0 then 0 else AddLong(IndexSum(indexes[..|indexes| - 1]), indexes[|indexes| - 1])
  }

  /** The mathematical sum of the indices. */
  function Sum(indexes: seq<int64>): int {
    if |indexes| == 0 then 0 else Sum(indexes[..|indexes| - 1]) + indexes[|indexes| - 1]
  }

  /** The `long` sum is the true sum wrapped to 64 bits, whatever the inputs. */
  lemma {:induction false} IndexSumWraps(indexes: seq<int64>)
    ensures IndexSum(indexes) == ToInt64(Sum(indexes))
  {
    if |indexes| > 0 {
      var k := |indexes| - 1;
      var s := Sum(indexes[..k]);
      IndexSumWraps(indexes[..k]);
      ToInt64Wraps(s);
      ToInt64Residue(ToInt64(s) + indexes[k], s + indexes[k]);
    }
  }

  /**
   * `getForIndexes`: the arguments `{indexSum, indexSum * 2}` for the `(long, long)` constructor,
   * both computed on `long`s.
   */
  function LocatorArgs(indexes: seq<int64>): (r: (int64, int64))
    ensures r.0 == ToInt64(Sum(indexes)) && r.1 == ToInt64(2 * Sum(indexes))
  {
    var s := IndexSum(indexes);
    IndexSumWraps(indexes);
    DoubleWraps(Sum(indexes));
    (s, ToInt64(s as int * 2))
  }

  /** Doubling a wrapped value and wrapping again is wrapping the doubled value. */
  lemma DoubleWraps(x: int)
    ensures ToInt64(ToInt64(x) as int * 2) == ToInt64(2 * x)
  {
    var y: int := ToInt64(x);
    ToInt64Wraps(x);
    DoubleResidue(x, y);
    ToInt64Residue(y * 2, 2 * x);
  }

  lemma DoubleResidue(x: int, y: int)
    requires (x - y) % Int64Modulus == 0
    ensures (y * 2 - 2 * x) % Int64Modulus == 0
  {
    var k := (x - y) / Int64Modulus;
    assert y * 2 - 2 * x == (-2 * k) * Int64Modulus;
    MultipleHasNoResidue(y * 2 - 2 * x, -2 * k, Int64Modulus);
  }

  /** The element the locator constructs at a cursor. */
  function LocatedMock(indexes: seq<int64>): MockStructure {
    var (i, t) := LocatorArgs(indexes);
    MockStructure(i, t)
  }

  /** What the variable-initialisation check expects at a cursor: `indexSum` and `indexSum * 2`. */
  predicate HelperAccepts(c: seq<int64>, m: MockStructure) {
    var s := IndexSum(c);
    m.index == s && m.testValue == ToInt64(s as int * 2)
  }

  /** The sum of an in-bounds cursor's indices is below the element count. */
  lemma {:induction false} SumBelowProduct(c: seq<int64>, lengths: seq<int64>)
    requires InBounds(c, lengths)
    ensures 0 <= Sum(c) < Product(lengths)
  {
    if |c| > 0 {
      var k := |c| - 1;
      var p, m := Product(lengths[..k]), lengths[k];
      SumBelowProduct(c[..k], lengths[..k]);
      MulNonNegative(p - 1, m - 1);
      assert (p - 1) * (m - 1) == p * m - p - m + 1;
    }
  }

  /**
   * For every cursor of an array whose element count is a `long`, the located element's
   * `index` is the exact sum of the cursor's indices, and its `testValue` is exactly twice that
   * when twice the element count is a `long` too; the helper check accepts it in every case.
   */
  lemma LocatedValues(c: seq<int64>, lengths: seq<int64>)
    requires InBounds(c, lengths) && Product(lengths) <= LongMax
    ensures LocatedMock(c).index == Sum(c)
    ensures 2 * Product(lengths) <= LongMax ==> LocatedMock(c).testValue == 2 * Sum(c)
    ensures HelperAccepts(c, LocatedMock(c))
  {
    SumBelowProduct(c, lengths);
    IndexSumWraps(c);
  }

  /** Builds the array's elements in cursor order through the locator. */
  method BuildWithLocator(lengths: seq<int64>) returns (elements: seq<MockStructure>)
    requires ValidLengths(lengths) && Product(lengths) <= LongMax
    ensures |elements| == Product(lengths)
    ensures forall c :: InBounds(c, lengths) ==> elements[Flat(c, lengths)] == LocatedMock(c)
  {
    var visited, cursors := Enumerate(lengths);
    elements := seq(|visited|, k requires 0 <= k < |visited| => LocatedMock(visited[k]));
    forall c | InBounds(c, lengths)
      ensures elements[Flat(c, lengths)] == LocatedMock(c)
    {
      FlatInjective(visited[Flat(c, lengths)], c, lengths);
    }
  }

  /**
   * `initValues`: walks the cursors and sets each element's `index` to the cursor's index sum
   * and its `testValue` to twice that.
   */
  method InitValues(lengths: seq<int64>, elements: seq<MockStructure>) returns (updated: seq<MockStructure>)
    requires ValidLengths(lengths) && Product(lengths) <= LongMax && |elements| == Product(lengths)
    ensures |updated| == |elements|
    ensures forall c :: InBounds(c, lengths) ==> HelperAccepts(c, updated[Flat(c, lengths)])
  {
    ProductNonNegative(lengths);
    var total: int64 := Product(lengths);
    var cursors := Zeros(|lengths|);
    if total > 0 {
      ZerosInBounds(lengths);
    }
    updated := elements;
    var count: int64 := 0;
    while count < total
      invariant 0 <= count <= total && |updated| == |elements|
      invariant count < total ==> InBounds(cursors, lengths) && Flat(cursors, lengths) == count
      invariant forall c :: InBounds(c, lengths) && Flat(c, lengths) < count ==> HelperAccepts(c, updated[Flat(c, lengths)])
    {
      var indexSum := IndexSum(cursors);
      updated := updated[count := MockStructure(indexSum, ToInt64(indexSum as int * 2))];
      forall c | InBounds(c, lengths) && Flat(c, lengths) == count
        ensures c == cursors
      {
        FlatInjective(c, cursors, lengths);
      }
      NextFlat(cursors, lengths);
      cursors := Increment(cursors, lengths);
      count := count + 1;
    }
  }

  /**
   * `assertCorrectVariableInitialisation`: walks the cursors and stops at the first element
   * whose fields are not `indexSum` and `indexSum * 2`. It succeeds exactly when every element
   * has them.
   */
  method CheckVariableInitialisation(lengths: seq<int64>, elements: seq<MockStructure>) returns (ok: bool)
    requires ValidLengths(lengths) && Product(lengths) <= LongMax && |elements| == Product(lengths)
    ensures ok <==> forall c :: InBounds(c, lengths) ==> HelperAccepts(c, elements[Flat(c, lengths)])
  {
    ProductNonNegative(lengths);
    var total: int64 := Product(lengths);
    var cursors := Zeros(|lengths|);
    if total > 0 {
      ZerosInBounds(lengths);
    }
    var count: int64 := 0;
    while count < total
      invariant 0 <= count <= total
      invariant count < total ==> InBounds(cursors, lengths) && Flat(cursors, lengths) == count
      invariant forall c :: InBounds(c, lengths) && Flat(c, lengths) < count ==> HelperAccepts(c, elements[Flat(c, lengths)])
    {
      var m := elements[Flat(cursors, lengths)];
      var indexSum := IndexSum(cursors);
      if !(m.index == indexSum && m.testValue == ToInt64(indexSum as int * 2)) {
        return false;
      }
      forall c | InBounds(c, lengths) && Flat(c, lengths) == count
        ensures c == cursors
      {
        FlatInjective(c, cursors, lengths);
      }
      NextFlat(cursors, lengths);
      cursors := Increment(cursors, lengths);
      count := count + 1;
    }
    return true;
  }

  /**
   * `assertCorrectFixedInitialisation`: walks the cursors and stops at the first element whose
   * fields differ from the expected pair. It succeeds exactly when every element has them.
   */
  method CheckFixedInitialisation(lengths: seq<int64>, elements: seq<MockStructure>, expectedIndex: int64, expectedValue: int64)
    returns (ok: bool)
    requires ValidLengths(lengths) && Product(lengths) <= LongMax && |elements| == Product(lengths)
    ensures ok <==> forall k :: 0 <= k < |elements| ==> elements[k] == MockStructure(expectedIndex, expectedValue)
  {
    ProductNonNegative(lengths);
    var total: int64 := Product(lengths);
    var cursors := Zeros(|lengths|);
    if total > 0 {
      ZerosInBounds(lengths);
    }
    var count: int64 := 0;
    while count < total
      invariant 0 <= count <= total
      invariant count < total ==> InBounds(cursors, lengths) && Flat(cursors, lengths) == count
      invariant forall k :: 0 <= k < count ==> elements[k] == MockStructure(expectedIndex, expectedValue)
    {
      var m := elements[Flat(cursors, lengths)];
      if !(m.index == expectedIndex && m.testValue == expectedValue) {
        return false;
      }
      assert elements[count] == MockStructure(expectedIndex, expectedValue);
      NextFlat(cursors, lengths);
      cursors := Increment(cursors, lengths);
      count := count + 1;
    }
    return true;
  }
}
