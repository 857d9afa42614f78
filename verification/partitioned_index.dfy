/**
 * Where a 64-bit logical index lives in the two-tier storage of a primitive array. Indices
 * below `Integer.MAX_VALUE` live in the directly addressed int block. The others are rebased by
 * `Integer.MAX_VALUE` and split into a partition number (`>>>` by the partition exponent) and
 * an offset (`&` with the partition mask).
 */
module PartitionedIndex {
  import opened Arith
  import opened JavaInts

  /** The superclass's `MAX_EXTRA_PARTITION_SIZE_POW2_EXPONENT` and `PARTITION_MASK`. */
  datatype Layout = Layout(exponent: nat, mask: int32)

  /** What the model assumes of the two constants: the mask selects the low `exponent` bits. */
  predicate ValidLayout(lay: Layout) {
    lay.exponent < 31 && lay.mask == Pow2(lay.exponent) - 1
  }

  /** Number of elements a full long-addressable partition holds. */
  function PartitionSize(lay: Layout): nat {
    Pow2(lay.exponent)
  }

  /** A storage slot: an offset into the int block, or a partition number and an offset into it. */
  datatype Slot = IntSlot(offset: int) | PartSlot(partition: int, offset: int)

  /** The partition number and offset the source computes for a long index (the same three lines appear in `_get(long)` and `_set(long)`). */
  function PartitionOf(lay: Layout, index: int64): (int32, int32) {
    var longIndex := ToInt64(index - IntMax);
    (ToInt32(UShr64(longIndex, lay.exponent)), And32(ToInt32(longIndex), lay.mask))
  }

  /** The slot `_get(long)` reads for `index`. */
  function Locate(lay: Layout, index: int64): Slot {
    if index < IntMax then
      IntSlot(ToInt32(index))
    else
      var (p, o) := PartitionOf(lay, index);
      PartSlot(p, o)
  }

  /** The logical index a slot stands for. */
  function SlotIndex(lay: Layout, s: Slot): int {
    match s
    case IntSlot(o) => o
    case PartSlot(p, o) => IntMax + p * PartitionSize(lay) + o
  }

  /** A non-negative index whose partition number fits in an `int`, so the cast in `PartitionOf` does not wrap. */
  predicate Resolvable(lay: Layout, index: int) {
    0 <= index && (index < IntMax || (index - IntMax) / PartitionSize(lay) <= IntMax)
  }

  /** The slots a Java `int` can address: the int block's offsets, and partitions numbered by an `int` with offsets below the partition size. */
  predicate InRange(lay: Layout, s: Slot) {
    match s
    case IntSlot(o) => 0 <= o < IntMax
    case PartSlot(p, o) => 0 <= p <= IntMax && 0 <= o < PartitionSize(lay)
  }

  /** At or above `Integer.MAX_VALUE`, the shift and the mask are the quotient and remainder of the rebased index. */
  lemma PartitionOfQuotient(lay: Layout, index: int64)
    requires ValidLayout(lay) && IntMax <= index && Resolvable(lay, index)
    ensures PartitionOf(lay, index)
         == ((index - IntMax) / PartitionSize(lay), (index - IntMax) % PartitionSize(lay))
  {
    var j: int64 := index - IntMax;
    assert ToInt64(index - IntMax) == j;
    assert UShr64(j, lay.exponent) == j / PartitionSize(lay) by {
      UShrNonNegative(j, lay.exponent);
    }
    DivShrinks(j, PartitionSize(lay));
    MaskedLowBits(j, lay.exponent);
  }

  /** For an index at or above `Integer.MAX_VALUE`, the partition and offset recombine to the index. */
  lemma PartitionOfRoundTrip(lay: Layout, index: int64) returns (p: int, o: int)
    requires ValidLayout(lay) && IntMax <= index && Resolvable(lay, index)
    ensures PartitionOf(lay, index) == (p, o)
    ensures 0 <= p <= IntMax && 0 <= o < PartitionSize(lay)
    ensures IntMax + p * PartitionSize(lay) + o == index
  {
    var d := PartitionSize(lay);
    p, o := (index - IntMax) / d, (index - IntMax) % d;
    Recombine(index - IntMax, d, p, o);
    PartitionOfQuotient(lay, index);
  }

  lemma Recombine(j: int, d: int, p: int, o: int)
    requires j >= 0 && d > 0 && p == j / d && o == j % d
    ensures 0 <= p && 0 <= o < d && j == p * d + o
  {
    DivShrinks(j, d);
  }

  /** Every resolvable index goes to an addressable slot that stands for that same index. */
  lemma LocateRoundTrip(lay: Layout, index: int64)
    requires ValidLayout(lay) && Resolvable(lay, index)
    ensures InRange(lay, Locate(lay, index))
    ensures Locate(lay, index).IntSlot? <==> index < IntMax
    ensures SlotIndex(lay, Locate(lay, index)) == index
  {
    if index >= IntMax {
      var p, o := PartitionOfRoundTrip(lay, index);
    }
  }

  /** Every addressable slot is the slot of exactly the index it stands for. */
  lemma SlotRoundTrip(lay: Layout, s: Slot)
    requires ValidLayout(lay) && InRange(lay, s)
    ensures 0 <= SlotIndex(lay, s) <= LongMax
    ensures Resolvable(lay, SlotIndex(lay, s))
    ensures Locate(lay, SlotIndex(lay, s)) == s
  {
    match s
    case IntSlot(o) =>
    case PartSlot(p, o) => PartSlotRoundTrip(lay, p, o, SlotIndex(lay, s));
  }

  lemma PartSlotRoundTrip(lay: Layout, p: int, o: int, index: int)
    requires ValidLayout(lay) && InRange(lay, PartSlot(p, o))
    requires index == IntMax + p * PartitionSize(lay) + o
    ensures IntMax <= index <= LongMax && Resolvable(lay, index)
    ensures Locate(lay, index) == PartSlot(p, o)
  {
    var d := PartitionSize(lay);
    PartSlotIndexFits(lay, p, o);
    DivModUnique(p * d + o, d, p, o);
    LocatePartition(lay, index, p, o);
  }

  lemma LocatePartition(lay: Layout, index: int64, p: int, o: int)
    requires ValidLayout(lay) && IntMax <= index
    requires p == (index - IntMax) / PartitionSize(lay) <= IntMax
    requires o == (index - IntMax) % PartitionSize(lay)
    ensures Locate(lay, index) == PartSlot(p, o)
  {
    PartitionOfQuotient(lay, index);
  }

  lemma PartSlotIndexFits(lay: Layout, p: int, o: int)
    requires ValidLayout(lay) && InRange(lay, PartSlot(p, o))
    ensures IntMax <= IntMax + p * PartitionSize(lay) + o <= LongMax
  {
    var d := PartitionSize(lay);
    Pow2Monotone(lay.exponent, 30);
    Pow2Values();
    MulNonNegative(p, d);
    assert p * d <= IntMax * d;
    assert IntMax * d <= IntMax * 0x4000_0000;
  }

  /** Distinct resolvable indices never share a slot. */
  lemma LocateInjective(lay: Layout, i: int64, j: int64)
    requires ValidLayout(lay) && Resolvable(lay, i) && Resolvable(lay, j)
    requires Locate(lay, i) == Locate(lay, j)
    ensures i == j
  {
    LocateRoundTrip(lay, i);
    LocateRoundTrip(lay, j);
  }

  /** The first index beyond the int block is the first element of the first partition. */
  lemma FirstPartitionStartsAtIntMax(lay: Layout)
    requires ValidLayout(lay)
    ensures Locate(lay, IntMax) == PartSlot(0, 0)
  {
    var p, o := PartitionOfRoundTrip(lay, IntMax);
    assert p * PartitionSize(lay) + o == 0;
    if p >= 1 {
      MulAtLeast(p, PartitionSize(lay));
    }
  }

  /**
   * Outside the resolvable range the cast on the partition number wraps: the index
   * `Integer.MAX_VALUE + 2^(32+P)` resolves to the same slot as `Integer.MAX_VALUE`.
   */
  lemma PartitionCastWraps(lay: Layout)
    requires ValidLayout(lay)
    ensures IntMax + Pow2(32 + lay.exponent) <= LongMax
    ensures !Resolvable(lay, IntMax + Pow2(32 + lay.exponent))
    ensures Locate(lay, IntMax + Pow2(32 + lay.exponent)) == Locate(lay, IntMax)
  {
    var e := lay.exponent;
    var d := PartitionSize(lay);
    var j := Pow2(32 + e);
    assert j == Int32Modulus * d && j <= Int32Modulus * 0x4000_0000 by {
      Pow2Values();
      Pow2Add(32, e);
      Pow2Monotone(e, 30);
    }
    DivModUnique(j, d, Int32Modulus, 0);
    WrappedPartition(lay, j);
    FirstPartitionStartsAtIntMax(lay);
  }

  /** The rebased index `2^32 * 2^P` has shifted value `2^32`, which the cast turns into 0, and no low bits. */
  lemma WrappedPartition(lay: Layout, j: int64)
    requires ValidLayout(lay) && 0 <= j <= LongMax - IntMax
    requires j / PartitionSize(lay) == Int32Modulus && j % PartitionSize(lay) == 0
    ensures Locate(lay, IntMax + j) == PartSlot(0, 0)
  {
    var index: int64 := IntMax + j;
    assert ToInt64(index - IntMax) == j;
    UShrNonNegative(j, lay.exponent);
    assert ToInt32(Int32Modulus) == 0;
    MaskedLowBits(j, lay.exponent);
  }

  /**
   * For an index below `Integer.MAX_VALUE` the rebased index is negative, and the partition
   * number computed from it is negative too.
   */
  lemma PartitionOfIntTierIsNegative(lay: Layout, index: int64)
    requires ValidLayout(lay) && 0 <= index < IntMax
    ensures PartitionOf(lay, index).0 < 0
  {
    var j: int64 := index - IntMax;
    assert ToInt64(index - IntMax) == j;
    UShrNegativeToInt(j, lay.exponent);
  }
}
