/**
 * The storage of a primitive `char` array and its intrinsifiable accessors. The first
 * `Integer.MAX_VALUE` elements live in one int-addressable block; the remaining ones live in
 * long-addressable partitions of `2^P` elements. The element type is a parameter (`char` is one
 * instance): nothing here depends on what an element is.
 *
 * Java's exceptions become values: a read yields `Ok(element)` or `Err(error)`, and a write
 * yields the array afterwards together with whether it completed normally or threw. A write
 * that throws part-way keeps what it had already written, as Java does.
 */
module PrimitiveCharArray {
  import opened Arith
  import opened JavaInts
  import opened PartitionedIndex

  /** The array's logical length and its two storage tiers. */
  datatype PrimitiveArray<T> = PrimitiveArray(length: int, intAddressable: seq<T>, longAddressable: seq<seq<T>>)

  datatype Error = ArrayIndexOutOfBounds | IllegalState

  /** The value of an expression that may throw. */
  datatype Result<R> = Ok(value: R) | Err(error: Error)

  /** How a `void` method ended. */
  datatype Outcome = Normal | Thrown(error: Error)

  /** The array after a write, and how the write ended. */
  datatype Effect<T> = Effect(state: PrimitiveArray<T>, outcome: Outcome)

  function Min(a: int, b: int): int {
    if a <= b then a else b
  }

  /**
   * `parts` holds exactly `count` elements: every partition but the last is full, and the last
   * holds the rest (it may be full, or empty).
   */
  predicate Covers<T>(parts: seq<seq<T>>, count: int, size: nat)
    decreases |parts|
  {
    if |parts| == 0 then count == 0
    else if |parts| == 1 then 0 <= count <= size && |parts[0]| == count
    else |parts[0]| == size && Covers(parts[1..], count - size, size)
  }

  /**
   * What the allocating superclass guarantees: the int block holds indices `[0, min(length,
   * Integer.MAX_VALUE))`, and the partitions, at most `Integer.MAX_VALUE` of them, hold the rest.
   */
  predicate Wf<T>(lay: Layout, a: PrimitiveArray<T>) {
    && ValidLayout(lay)
    && 0 <= a.length <= LongMax
    && |a.intAddressable| == Min(a.length, IntMax)
    && |a.longAddressable| <= IntMax
    && Covers(a.longAddressable, a.length - |a.intAddressable|, PartitionSize(lay))
  }

  function Flatten<T>(parts: seq<seq<T>>): seq<T> {
    if |parts| == 0 then [] else parts[0] + Flatten(parts[1..])
  }

  /** The logical contents: element `i` of the array is `Contents(a)[i]`. */
  function Contents<T>(a: PrimitiveArray<T>): seq<T> {
    a.intAddressable + Flatten(a.longAddressable)
  }

  lemma {:induction false} CoversLength<T>(parts: seq<seq<T>>, count: int, size: nat)
    requires Covers(parts, count, size)
    ensures 0 <= count == |Flatten(parts)|
    decreases |parts|
  {
    if |parts| > 1 {
      CoversLength(parts[1..], count - size, size);
    }
  }

  /** Element `j` of the covered range sits at partition `p`, offset `o`, where `j == p * size + o`. */
  lemma {:induction false} CoversIndex<T>(parts: seq<seq<T>>, count: int, size: nat, j: int) returns (p: nat, o: nat)
    requires size > 0 && Covers(parts, count, size) && 0 <= j < count
    ensures p < |parts| && o < |parts[p]| && o < size
    ensures j == p * size + o
    ensures j < |Flatten(parts)| && Flatten(parts)[j] == parts[p][o]
    decreases |parts|
  {
    CoversLength(parts, count, size);
    if j < size {
      p, o := 0, j;
    } else {
      CoversLength(parts[1..], count - size, size);
      var p', o' := CoversIndex(parts[1..], count - size, size, j - size);
      p, o := p' + 1, o';
      assert p * size == p' * size + size;
    }
  }

  /** Every element of every partition stands for an index of the covered range. */
  lemma {:induction false} CoversSlot<T>(parts: seq<seq<T>>, count: int, size: nat, p: int, o: int)
    requires Covers(parts, count, size) && 0 <= p < |parts| && 0 <= o < |parts[p]|
    ensures o < size && p * size + o < count
    decreases |parts|
  {
    if |parts| > 1 {
      CoversLength(parts[1..], count - size, size);
      if p > 0 {
        CoversSlot(parts[1..], count - size, size, p - 1, o);
        assert (p - 1) * size + size == p * size;
      }
    }
  }

  /** Writing one element of one partition writes the matching element of the flattened range. */
  lemma {:induction false} FlattenUpdate<T>(parts: seq<seq<T>>, count: int, size: nat, p: int, o: int, v: T)
    requires Covers(parts, count, size) && 0 <= p < |parts| && 0 <= o < |parts[p]|
    ensures Covers(parts[p := parts[p][o := v]], count, size)
    ensures p * size + o < |Flatten(parts)|
    ensures Flatten(parts[p := parts[p][o := v]]) == Flatten(parts)[p * size + o := v]
    decreases |parts|
  {
    var updated := parts[p := parts[p][o := v]];
    CoversLength(parts, count, size);
    CoversSlot(parts, count, size, p, o);
    if p == 0 {
      assert updated[1..] == parts[1..];
      ConcatUpdate(parts[0], Flatten(parts[1..]), o, v);
    } else {
      var k := (p - 1) * size + o;
      assert p * size + o == size + k;
      FlattenUpdate(parts[1..], count - size, size, p - 1, o, v);
      assert updated[1..] == parts[1..][p - 1 := parts[p][o := v]];
      ConcatUpdateRight(parts[0], Flatten(parts[1..]), k, v);
    }
  }

  lemma ConcatUpdate<T>(x: seq<T>, y: seq<T>, k: int, v: T)
    requires 0 <= k < |x|
    ensures (x + y)[k := v] == x[k := v] + y
  {
  }

  lemma ConcatUpdateRight<T>(x: seq<T>, y: seq<T>, k: int, v: T)
    requires 0 <= k < |y|
    ensures (x + y)[|x| + k := v] == x + y[k := v]
  {
  }

  /** Whether the slot exists: its block or partition exists and the offset lies inside it. */
  predicate ValidSlot<T>(a: PrimitiveArray<T>, s: Slot) {
    match s
    case IntSlot(o) => 0 <= o < |a.intAddressable|
    case PartSlot(p, o) => 0 <= p < |a.longAddressable| && 0 <= o < |a.longAddressable[p]|
  }

  /** A Java array read at a slot; an index outside its array throws `ArrayIndexOutOfBoundsException`. */
  function ReadSlot<T>(a: PrimitiveArray<T>, s: Slot): (r: Result<T>)
    ensures r.Ok? <==> ValidSlot(a, s)
    ensures r.Ok? && s.IntSlot? ==> r.value == a.intAddressable[s.offset]
    ensures r.Ok? && s.PartSlot? ==> r.value == a.longAddressable[s.partition][s.offset]
    ensures r.Err? ==> r.error == ArrayIndexOutOfBounds
  {
    match s
    case IntSlot(o) =>
      if 0 <= o < |a.intAddressable| then Ok(a.intAddressable[o]) else Err(ArrayIndexOutOfBounds)
    case PartSlot(p, o) =>
      if 0 <= p < |a.longAddressable| && 0 <= o < |a.longAddressable[p]| then Ok(a.longAddressable[p][o])
      else Err(ArrayIndexOutOfBounds)
  }

  /** A Java array store at a slot: only that slot changes, and an out-of-bounds store changes nothing. */
  function WriteSlot<T>(a: PrimitiveArray<T>, s: Slot, v: T): (r: Effect<T>)
    ensures r.outcome == Normal <==> ValidSlot(a, s)
    ensures r.outcome != Normal ==> r == Effect(a, Thrown(ArrayIndexOutOfBounds))
    ensures r.outcome == Normal ==> ReadSlot(r.state, s) == Ok(v)
    ensures forall t :: t != s ==> ReadSlot(r.state, t) == ReadSlot(a, t)
    ensures r.state.length == a.length
  {
    if !ValidSlot(a, s) then Effect(a, Thrown(ArrayIndexOutOfBounds))
    else match s
      case IntSlot(o) =>
        Effect(a.(intAddressable := a.intAddressable[o := v]), Normal)
      case PartSlot(p, o) =>
        Effect(a.(longAddressable := a.longAddressable[p := a.longAddressable[p][o := v]]), Normal)
  }

  /** `_get(int)`: a read of the int-addressable block. */
  function GetInt<T>(a: PrimitiveArray<T>, index: int32): (r: Result<T>)
    ensures r.Ok? <==> 0 <= index < |a.intAddressable|
    ensures r.Ok? ==> r.value == Contents(a)[index]
    ensures r.Err? ==> r.error == ArrayIndexOutOfBounds
  {
    ReadSlot(a, IntSlot(index))
  }

  /**
   * `_get(long)`: below `Integer.MAX_VALUE` the `(int)` cast of the index reads the int block;
   * otherwise the partition and offset computed by `PartitionOf` are read.
   */
  function GetLong<T>(lay: Layout, a: PrimitiveArray<T>, index: int64): Result<T> {
    if index < IntMax then
      GetInt(a, ToInt32(index))
    else
      var (p, o) := PartitionOf(lay, index);
      ReadSlot(a, PartSlot(p, o))
  }

  /** `_set(int, value)`: a store into the int-addressable block. */
  function SetInt<T>(a: PrimitiveArray<T>, index: int32, v: T): (r: Effect<T>)
    ensures r.outcome == Normal <==> 0 <= index < |a.intAddressable|
    ensures r.outcome != Normal ==> r == Effect(a, Thrown(ArrayIndexOutOfBounds))
    ensures r.outcome == Normal ==>
      && r.state.length == a.length
      && |r.state.intAddressable| == |a.intAddressable|
      && r.state.longAddressable == a.longAddressable
      && Contents(r.state) == Contents(a)[index := v]
  {
    var r := WriteSlot(a, IntSlot(index), v);
    assert r.outcome == Normal ==> Contents(r.state) == Contents(a)[index := v];
    r
  }

  /**
   * `_set(long, value)` as written: below `Integer.MAX_VALUE` it stores through `_set(int, value)`
   * and then, with no `return`, goes on to the partition store as well.
   */
  function SetLongAsWritten<T>(lay: Layout, a: PrimitiveArray<T>, index: int64, v: T): (r: Effect<T>)
    ensures IntMax <= index ==> r == SetLong(lay, a, index, v)
  {
    var first := if index < IntMax then SetInt(a, ToInt32(index), v) else Effect(a, Normal);
    if first.outcome != Normal then first
    else
      var (p, o) := PartitionOf(lay, index);
      WriteSlot(first.state, PartSlot(p, o), v)
  }

  /** `_set(long, value)` with the two tiers kept apart, as `_get(long)` keeps them. */
  function SetLong<T>(lay: Layout, a: PrimitiveArray<T>, index: int64, v: T): Effect<T> {
    if index < IntMax then
      SetInt(a, ToInt32(index), v)
    else
      var (p, o) := PartitionOf(lay, index);
      WriteSlot(a, PartSlot(p, o), v)
  }

  /** `_asArray()`: the int-addressable block, refused for arrays longer than `Integer.MAX_VALUE`. */
  function AsArray<T>(a: PrimitiveArray<T>): Result<seq<T>> {
    if a.length > IntMax then Err(IllegalState) else Ok(a.intAddressable)
  }

  /** Where `_get(long)` finds index `i` of the long tier: the quotient and remainder by the partition size. */
  lemma LongTierSlot<T>(lay: Layout, a: PrimitiveArray<T>, i: int64) returns (p: int, o: int)
    requires Wf(lay, a) && IntMax <= i < a.length
    ensures |a.intAddressable| == IntMax
    ensures 0 <= p < |a.longAddressable| && 0 <= o < |a.longAddressable[p]|
    ensures PartitionOf(lay, i) == (p, o)
    ensures i == IntMax + p * PartitionSize(lay) + o
    ensures i < |Contents(a)| && Contents(a)[i] == a.longAddressable[p][o]
  {
    var d := PartitionSize(lay);
    var j := i - IntMax;
    p, o := CoversIndex(a.longAddressable, a.length - IntMax, d, j);
    DivModUnique(j, d, p, o);
    PartitionOfQuotient(lay, i);
  }

  /**
   * `_get(long)` reads element `i` of the logical contents for every `i` in `[0, length)`;
   * negative `int`-range indices and resolvable indices at or past the length throw
   * `ArrayIndexOutOfBoundsException`.
   */
  lemma GetLongReadsContents<T>(lay: Layout, a: PrimitiveArray<T>, i: int64)
    requires Wf(lay, a)
    ensures 0 <= i < a.length ==> i < |Contents(a)| && GetLong(lay, a, i) == Ok(Contents(a)[i])
    ensures -0x8000_0000 <= i < 0 ==> GetLong(lay, a, i) == Err(ArrayIndexOutOfBounds)
    ensures a.length <= i && Resolvable(lay, i) ==> GetLong(lay, a, i) == Err(ArrayIndexOutOfBounds)
  {
    if IntMax <= i < a.length {
      var p, o := LongTierSlot(lay, a, i);
    } else if a.length <= i && IntMax <= i && Resolvable(lay, i) {
      PastTheEndUnused(lay, a, i);
    }
  }

  /** A resolvable index at or past the length, beyond the int block, names no existing slot. */
  lemma PastTheEndUnused<T>(lay: Layout, a: PrimitiveArray<T>, i: int64)
    requires Wf(lay, a) && IntMax <= i && a.length <= i && Resolvable(lay, i)
    ensures GetLong(lay, a, i) == Err(ArrayIndexOutOfBounds)
  {
    var d := PartitionSize(lay);
    var p, o := (i - IntMax) / d, (i - IntMax) % d;
    Recombine(i - IntMax, d, p, o);
    PartitionOfQuotient(lay, i);
    if ValidSlot(a, PartSlot(p, o)) {
      CoversSlot(a.longAddressable, a.length - |a.intAddressable|, d, p, o);
      assert false;
    }
  }

  /**
   * Every existing slot of a well-formed array stands for an index in `[0, length)` whose
   * location is that slot: no slot lies outside the image of the index range.
   */
  lemma SlotsAreLocated<T>(lay: Layout, a: PrimitiveArray<T>, s: Slot)
    requires Wf(lay, a) && ValidSlot(a, s)
    ensures 0 <= SlotIndex(lay, s) < a.length
    ensures Locate(lay, SlotIndex(lay, s)) == s
  {
    if s.PartSlot? {
      var d := PartitionSize(lay);
      CoversSlot(a.longAddressable, a.length - |a.intAddressable|, d, s.partition, s.offset);
      MulNonNegative(s.partition, d);
    }
    SlotRoundTrip(lay, s);
  }

  /**
   * The corrected `_set(long, value)` stores into element `i` and nowhere else: the contents
   * afterwards are the old contents with element `i` replaced, and the array stays well formed.
   */
  lemma SetLongThenGet<T>(lay: Layout, a: PrimitiveArray<T>, i: int64, v: T)
    requires Wf(lay, a) && 0 <= i < a.length
    ensures SetLong(lay, a, i, v).outcome == Normal
    ensures Wf(lay, SetLong(lay, a, i, v).state)
    ensures i < |Contents(a)| && Contents(SetLong(lay, a, i, v).state) == Contents(a)[i := v]
    ensures GetLong(lay, SetLong(lay, a, i, v).state, i) == Ok(v)
  {
    var r := SetLong(lay, a, i, v);
    if i < IntMax {
      GetLongReadsContents(lay, r.state, i);
    } else {
      var d := PartitionSize(lay);
      var p, o := LongTierSlot(lay, a, i);
      FlattenUpdate(a.longAddressable, a.length - IntMax, d, p, o, v);
      assert r.state.longAddressable == a.longAddressable[p := a.longAddressable[p][o := v]];
      assert Contents(r.state) == Contents(a)[i := v];
      GetLongReadsContents(lay, r.state, i);
    }
  }

  /**
   * `_set(long, value)` as written, for an index in `[0, Integer.MAX_VALUE)`: after the int
   * store, the partition number computed from the negative rebased index is negative, so the
   * method always throws `ArrayIndexOutOfBoundsException`, after having stored the element
   * whenever it lies in the int block.
   */
  lemma SetLongAsWrittenThrows<T>(lay: Layout, a: PrimitiveArray<T>, i: int64, v: T)
    requires ValidLayout(lay) && 0 <= i < IntMax
    ensures SetLongAsWritten(lay, a, i, v).outcome == Thrown(ArrayIndexOutOfBounds)
    ensures SetLongAsWritten(lay, a, i, v).state == SetInt(a, i, v).state
    ensures i < |a.intAddressable| ==> Contents(SetLongAsWritten(lay, a, i, v).state) == Contents(a)[i := v]
  {
    PartitionOfIntTierIsNegative(lay, i);
  }

  /**
   * `_asArray()` fails with `IllegalStateException` exactly when the length exceeds
   * `Integer.MAX_VALUE`; otherwise the block it returns holds the whole logical contents.
   */
  lemma AsArrayExportsContents<T>(lay: Layout, a: PrimitiveArray<T>)
    requires Wf(lay, a)
    ensures AsArray(a) == Err(IllegalState) <==> a.length > IntMax
    ensures AsArray(a).Ok? ==> AsArray(a).value == Contents(a) && |AsArray(a).value| == a.length
  {
    CoversLength(a.longAddressable, a.length - |a.intAddressable|, PartitionSize(lay));
  }

  /**
   * Past the resolvable range the `(int)` cast on the partition number wraps, so the read at
   * `Integer.MAX_VALUE + 2^(32+P)` returns the element at `Integer.MAX_VALUE` rather than throwing.
   */
  lemma ReadPastRangeWraps<T>(lay: Layout, a: PrimitiveArray<T>, x: int64)
    requires ValidLayout(lay) && x == IntMax + Pow2(32 + lay.exponent)
    ensures !Resolvable(lay, x)
    ensures GetLong(lay, a, x) == GetLong(lay, a, IntMax)
  {
    PartitionCastWraps(lay);
    GetLongSameSlot(lay, a, x, IntMax);
  }

  /** Two indices of the long tier with the same location read the same thing. */
  lemma GetLongSameSlot<T>(lay: Layout, a: PrimitiveArray<T>, i: int64, k: int64)
    requires IntMax <= i && IntMax <= k && Locate(lay, i) == Locate(lay, k)
    ensures GetLong(lay, a, i) == GetLong(lay, a, k)
  {
  }
}
