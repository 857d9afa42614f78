# ObjectLayout: partitioned primitive-array addressing and the cursor walk

This project models two pieces of index arithmetic from ObjectLayout and proves properties of them.

**Partitioned storage of a primitive `char` array** (`AbstractPrimitiveCharArray`). A primitive
array may be longer than a Java array can be. The first `Integer.MAX_VALUE` elements live in one
int-addressable block. Every index at or above `Integer.MAX_VALUE` is first rebased by subtracting
`Integer.MAX_VALUE`. The rebased index is then split into a partition number, `>>> P`, and an offset,
`& PARTITION_MASK`, into the long-addressable partitions. The model consists of:

- `PartitionedIndex`: where an index lives. `PartitionOf` is the three source lines, with Java's
  `long` wrap, `>>>` on the 64-bit pattern, the `(int)` narrowing and the bitwise `&`, all written
  out in `JavaInts`. `Locate` gives the slot an index resolves to.
- `PrimitiveCharArray`: the array as a value, an int block plus a sequence of partitions. It
  provides `_get`, `_set` and `_asArray` on that value. Java exceptions are values: a read yields
  `Ok`/`Err`, and a write yields the new state together with `Normal` or `Thrown`.
- `CopyConstruction`: the copy constructor over a small heap of Java arrays addressed by
  reference, so that sharing, and the absence of sharing, can be stated.

**The cursor walk of the structured-array tests** (`StructuredArrayPerfTest`). An N-dimensional
cursor of `long` indices is advanced like an odometer, innermost dimension first.

- `Cursors` defines the walk, `Next`, and the row-major element number it follows, `Flat`.
- `MockStructures` holds:
  - the test element `MockStructure`: its constructors (`DefaultMock`, `CopyMock`) and `equals`;
  - the locator's argument rule `(indexSum, indexSum * 2)`, computed on wrapping `long`s;
  - the three test-support loops that fill and check an array along the walk.
- A structured array is represented only by its elements in row-major order.

The superclass `PrimitiveArray` is not part of this model. Its constants `P` and `PARTITION_MASK`
are a `Layout` parameter, assumed by `ValidLayout` to satisfy `P < 31` and
`PARTITION_MASK == 2^P - 1`. Its allocation is the assumption `Wf`: the int block holds
`min(length, Integer.MAX_VALUE)` elements, and the partitions hold the rest. All partitions are
full except the last, which may be partly filled or empty.

## Model

| member | source | states |
|---|---|---|
| JavaInts.ToInt32 | ObjectLayout/src/main/java/org/ObjectLayout/intrinsifiable/AbstractPrimitiveCharArray.java:34 | the `(int)` cast returns a value in the `int` range, and leaves an `int`-range value unchanged |
| JavaInts.UShrNonNegative | ObjectLayout/src/main/java/org/ObjectLayout/intrinsifiable/AbstractPrimitiveCharArray.java:39 | `>>> s` with `s < 64` on a non-negative `long` is division by `2^s` |
| JavaInts.MaskedLowBits | ObjectLayout/src/main/java/org/ObjectLayout/intrinsifiable/AbstractPrimitiveCharArray.java:40 | `(int) x & (2^p - 1)` is `x mod 2^p` for every `x`, whatever the high bits |
| JavaInts.UShrNegativeToInt | ObjectLayout/src/main/java/org/ObjectLayout/intrinsifiable/AbstractPrimitiveCharArray.java:55-56 | for a negative rebased index of `int` magnitude, `(int)(x >>> P)` is negative |
| PartitionedIndex.PartitionOfQuotient | ObjectLayout/src/main/java/org/ObjectLayout/intrinsifiable/AbstractPrimitiveCharArray.java:38-40 | from `Integer.MAX_VALUE` up, within the resolvable range, shift and mask are the quotient and remainder of the rebased index by `2^P` |
| PartitionedIndex.PartitionOfRoundTrip | ObjectLayout/src/main/java/org/ObjectLayout/intrinsifiable/AbstractPrimitiveCharArray.java:37-42 | the partition and offset satisfy `INT_MAX + p * 2^P + off == index`, with `0 <= p <= INT_MAX` and `0 <= off < 2^P` |
| PartitionedIndex.LocateRoundTrip | ObjectLayout/src/main/java/org/ObjectLayout/intrinsifiable/AbstractPrimitiveCharArray.java:32-43 | every resolvable index goes to an addressable slot; the slot is in the int block exactly when the index is below `Integer.MAX_VALUE`; the slot stands for that index |
| PartitionedIndex.SlotRoundTrip | ObjectLayout/src/main/java/org/ObjectLayout/intrinsifiable/AbstractPrimitiveCharArray.java:32-43 | every addressable slot is the location of the `long` index it stands for, so the mapping is onto the addressable slots |
| PartitionedIndex.LocateInjective | ObjectLayout/src/main/java/org/ObjectLayout/intrinsifiable/AbstractPrimitiveCharArray.java:33-42 | two resolvable indices with the same slot are equal |
| PartitionedIndex.FirstPartitionStartsAtIntMax | ObjectLayout/src/main/java/org/ObjectLayout/intrinsifiable/AbstractPrimitiveCharArray.java:37-42 | index `Integer.MAX_VALUE` is partition 0, offset 0 |
| PartitionedIndex.PartitionCastWraps | ObjectLayout/src/main/java/org/ObjectLayout/intrinsifiable/AbstractPrimitiveCharArray.java:39 | past the resolvable range the `(int)` cast wraps: `INT_MAX + 2^(32+P)` is not resolvable and resolves to the slot of `INT_MAX` |
| PartitionedIndex.PartitionOfIntTierIsNegative | ObjectLayout/src/main/java/org/ObjectLayout/intrinsifiable/AbstractPrimitiveCharArray.java:55-56 | for `0 <= index < Integer.MAX_VALUE` the partition number computed in `_set(long)` is negative |
| PrimitiveCharArray.ReadSlot | ObjectLayout/src/main/java/org/ObjectLayout/intrinsifiable/AbstractPrimitiveCharArray.java:42 | a Java array read succeeds exactly when the partition and offset exist, and then returns the element stored there; otherwise it throws `ArrayIndexOutOfBoundsException` |
| PrimitiveCharArray.WriteSlot | ObjectLayout/src/main/java/org/ObjectLayout/intrinsifiable/AbstractPrimitiveCharArray.java:59 | a Java array store completes exactly when the slot exists; it then reads back the value, every other slot reads as before, and a failed store changes nothing |
| PrimitiveCharArray.GetInt | ObjectLayout/src/main/java/org/ObjectLayout/intrinsifiable/AbstractPrimitiveCharArray.java:28-30 | `_get(int)` succeeds exactly on the int block's indices and returns that element of the logical contents; otherwise it throws `ArrayIndexOutOfBoundsException` |
| PrimitiveCharArray.SetInt | ObjectLayout/src/main/java/org/ObjectLayout/intrinsifiable/AbstractPrimitiveCharArray.java:45-47 | `_set(int)` completes exactly on the int block's indices; the contents become the old contents with that element replaced, and the partitions are untouched; otherwise it throws and changes nothing |
| PrimitiveCharArray.SetLongAsWritten | ObjectLayout/src/main/java/org/ObjectLayout/intrinsifiable/AbstractPrimitiveCharArray.java:49-60 | from `Integer.MAX_VALUE` up, `_set(long)` as written behaves as the corrected store |
| PrimitiveCharArray.LongTierSlot | ObjectLayout/src/main/java/org/ObjectLayout/intrinsifiable/AbstractPrimitiveCharArray.java:37-42 | every index in `[INT_MAX, length)` resolves to an existing partition slot that holds that element of the logical contents |
| PrimitiveCharArray.GetLongReadsContents | ObjectLayout/src/main/java/org/ObjectLayout/intrinsifiable/AbstractPrimitiveCharArray.java:32-43 | `_get(long)` returns element `i` of the contents for every `i` in `[0, length)`, and throws `ArrayIndexOutOfBoundsException` for negative `int`-range indices and for resolvable indices at or past the length |
| PrimitiveCharArray.PastTheEndUnused | ObjectLayout/src/main/java/org/ObjectLayout/intrinsifiable/AbstractPrimitiveCharArray.java:37-42 | a resolvable index at or past the length names no existing partition slot |
| PrimitiveCharArray.SlotsAreLocated | ObjectLayout/src/main/java/org/ObjectLayout/intrinsifiable/AbstractPrimitiveCharArray.java:32-43 | every existing slot of a well-formed array is the location of an index in `[0, length)` |
| PrimitiveCharArray.SetLongThenGet | ObjectLayout/src/main/java/org/ObjectLayout/intrinsifiable/AbstractPrimitiveCharArray.java:49-60 | the corrected `_set(long)` completes for every index in `[0, length)`; it keeps the array well formed and replaces exactly element `i` of the contents, and `_get(long)` then reads the new value |
| PrimitiveCharArray.SetLongAsWrittenThrows | ObjectLayout/src/main/java/org/ObjectLayout/intrinsifiable/AbstractPrimitiveCharArray.java:49-60 | for `0 <= index < Integer.MAX_VALUE`, `_set(long)` as written always throws `ArrayIndexOutOfBoundsException`, after the int-block store has taken effect |
| PrimitiveCharArray.AsArrayExportsContents | ObjectLayout/src/main/java/org/ObjectLayout/intrinsifiable/AbstractPrimitiveCharArray.java:19-26 | `_asArray` throws `IllegalStateException` exactly when the length exceeds `Integer.MAX_VALUE`; otherwise the block it returns is the whole contents |
| CopyConstruction.ExportBlock | ObjectLayout/src/main/java/org/ObjectLayout/intrinsifiable/AbstractPrimitiveCharArray.java:19-26 | `_asArray` returns a reference to one of the object's own blocks, not a clone; its current contents are what the value-level `AsArray` returns, and the refusal for arrays longer than `Integer.MAX_VALUE` is the same |
| CopyConstruction.ExportedBlockIsLive | ObjectLayout/src/main/java/org/ObjectLayout/intrinsifiable/AbstractPrimitiveCharArray.java:25 | the returned `char[]` aliases the storage: a later `_set(int)` shows in it, and a store into it changes the array as `_set(int)` would |
| PrimitiveCharArray.ReadPastRangeWraps | ObjectLayout/src/main/java/org/ObjectLayout/intrinsifiable/AbstractPrimitiveCharArray.java:37-42 | `_get(INT_MAX + 2^(32+P))` reads what `_get(INT_MAX)` reads |
| CopyConstruction.CopyConstruct | ObjectLayout/src/main/java/org/ObjectLayout/intrinsifiable/AbstractPrimitiveCharArray.java:67-74 | the copy denotes the same array as the source; every block of the copy is newly allocated and used only once; nothing allocated before changes |
| CopyConstruction.StoreSlot | ObjectLayout/src/main/java/org/ObjectLayout/intrinsifiable/AbstractPrimitiveCharArray.java:46 | a store through an object's references changes only a block the object holds |
| CopyConstruction.StoreSlotMatchesWriteSlot | ObjectLayout/src/main/java/org/ObjectLayout/intrinsifiable/AbstractPrimitiveCharArray.java:59 | on an object with distinct blocks, the store through references has the same outcome and effect as the value-level store |
| CopyConstruction.StoreSlotFrame | ObjectLayout/src/main/java/org/ObjectLayout/intrinsifiable/AbstractPrimitiveCharArray.java:67-74 | a store through one object leaves unchanged every object that shares no block with it |
| CopyConstruction.CopySharesNothing | ObjectLayout/src/main/java/org/ObjectLayout/intrinsifiable/AbstractPrimitiveCharArray.java:68-73 | the copy and its source share no block, in both directions |
| CopyConstruction.CopyThenStore | ObjectLayout/src/main/java/org/ObjectLayout/intrinsifiable/AbstractPrimitiveCharArray.java:67-74 | after a copy, a store into either the copy or the source leaves the other one denoting the source's original value; a store into the copy changes the copy as the value-level store does |
| Cursors.Inc64Wraps | src/test/java/org/ObjectLayout/StructuredArrayPerfTest.java:129 | `++cursors[d]` on a `long` is the low 64 bits of `cursors[d] + 1` |
| Cursors.FlatInjective | src/test/java/org/ObjectLayout/StructuredArrayPerfTest.java:117-135 | distinct in-bounds cursors have distinct row-major numbers |
| Cursors.NextChangesSuffix | src/test/java/org/ObjectLayout/StructuredArrayPerfTest.java:128-133 | an increment keeps the dimensions left of the last non-wrapping one, adds one to that one, and zeroes the wrapped ones; if all wrap, the cursor becomes all zeros |
| Cursors.WrappedAreTrailing | src/test/java/org/ObjectLayout/StructuredArrayPerfTest.java:128-133 | the wrapped dimensions are exactly the trailing ones whose increment reaches their length |
| Cursors.NextFlat | src/test/java/org/ObjectLayout/StructuredArrayPerfTest.java:128-133 | from an in-bounds cursor, an increment stays in bounds and adds one to the row-major number; from the last element it returns to all zeros |
| Cursors.ZerosInBounds | src/test/java/org/ObjectLayout/StructuredArrayPerfTest.java:117 | for a non-empty array the all-zeros start cursor is in bounds and is element 0 |
| Cursors.Increment | src/test/java/org/ObjectLayout/StructuredArrayPerfTest.java:128-133 | the in-place loop computes the increment `Next` |
| Cursors.Enumerate | src/test/java/org/ObjectLayout/StructuredArrayPerfTest.java:117-135 | `product(lengths)` steps from all zeros visit every in-bounds cursor exactly once, in increasing row-major order, and end at all zeros |
| MockStructures.Equals | src/test/java/org/ObjectLayout/StructuredArrayPerfTest.java:238-244 | `equals` holds exactly for a `MockStructure` with the same `index` and `testValue` |
| MockStructures.CopyEqualsSource | src/test/java/org/ObjectLayout/StructuredArrayPerfTest.java:217-220 | a copy equals its source in both directions; `equals` is reflexive and symmetric |
| MockStructures.IndexSumWraps | src/test/java/org/ObjectLayout/StructuredArrayPerfTest.java:275-278 | the `long` loop `indexSum += index` yields the true sum wrapped to 64 bits |
| MockStructures.DoubleWraps | src/test/java/org/ObjectLayout/StructuredArrayPerfTest.java:279 | doubling the wrapped sum on `long`s is the wrapped double of the true sum |
| MockStructures.LocatorArgs | src/test/java/org/ObjectLayout/StructuredArrayPerfTest.java:274-279 | the locator's arguments are `(Σ indexes, 2 · Σ indexes)`, each wrapped to 64 bits |
| MockStructures.LocatedValues | src/test/java/org/ObjectLayout/StructuredArrayPerfTest.java:153-163 | for an in-bounds cursor the located element has `index == Σc`, has `testValue == 2 · Σc` when twice the element count is a `long`, and is what the variable-initialisation check expects |
| MockStructures.BuildWithLocator | src/test/java/org/ObjectLayout/StructuredArrayPerfTest.java:274-283 | the test builds its array from this locator (`StructuredArray.newInstance`, line 74). The model builds it along the walk, and the element at every cursor's row-major position is the one the locator makes for that cursor |
| MockStructures.InitValues | src/test/java/org/ObjectLayout/StructuredArrayPerfTest.java:176-202 | after `initValues`, every element holds its cursor's `indexSum` and `indexSum * 2` |
| MockStructures.CheckVariableInitialisation | src/test/java/org/ObjectLayout/StructuredArrayPerfTest.java:138-174 | the check passes exactly when every element holds its cursor's `indexSum` and `indexSum * 2` |
| MockStructures.CheckFixedInitialisation | src/test/java/org/ObjectLayout/StructuredArrayPerfTest.java:110-136 | the check passes exactly when every element holds the expected pair |

## Left out

- The benchmark itself is not modelled: the timing loop, `System.nanoTime`, the floating-point rate arithmetic, printing and `main` (StructuredArrayPerfTest.java:31-104). `EncapsulatedArray` and its sum loops are left out with it.
- The loops that compare `array.getLengths()` with `lengths` and check the element class (StructuredArrayPerfTest.java:112-115, 140-143) are left out. `StructuredArray` is represented only by its elements in row-major order, with the element count equal to `product(lengths)`. How `StructuredArray.newInstance` builds an array from a locator is not part of this model. `BuildWithLocator` stands in for it by placing the locator's element at each cursor's position.
- Reflection (`getConstructor`, `ConstructorAndArgs`, StructuredArrayPerfTest.java:282) is left out. Only the constructor's argument values are modelled.
- `hashCode`, `toString` and `MockStructureWithFinalField` carry no property and are left out. The getters and setters are not separate members: `InitValues` models `setIndex`/`setTestValue` (StructuredArrayPerfTest.java:190-191) by replacing the element with one that holds the new field values. The no-argument `MockStructure()` is `DefaultMock`, which has no contract of its own.
- The superclass `PrimitiveArray` is not part of this model. Its partition constants are parameters with the assumption `ValidLayout`. Its allocation is the assumption `Wf`, and so is the length a copy inherits from its source. The no-argument constructor (AbstractPrimitiveCharArray.java:62-65) only calls the allocators, so it has no model.
- JIT intrinsification, and any concurrent access to the arrays, are outside the model.
- GetLong: no single contract of its own; its behaviour is stated by `GetLongReadsContents`, `PastTheEndUnused` and `ReadPastRangeWraps`. Indices below `-2^31` wrap in the `(int)` cast and are not characterised further.
- PrimitiveCharArray.AsArrayExportsContents: returns the block's contents as a value, so it cannot say that the returned `char[]` is the live storage; `CopyConstruction.ExportBlock` and `CopyConstruction.ExportedBlockIsLive` state that aliasing over the heap model.
- JavaInts.UShrNegativeToInt: states only the sign of the narrowed shift, which is all `_set(long)` needs, and not its value.
- Cursors.Enumerate: requires `product(lengths) <= Long.MAX_VALUE`, since the test's `long` element counter could not reach a larger count.
- MockStructures.LocatedValues: states `testValue == 2 · Σc` only when twice the element count is a `long`; otherwise it states only the wrapped value.

## Findings

| source | as written | input that shows it | evidently intended | confidence | as-written member | corrected member |
|---|---|---|---|---|---|---|
| ObjectLayout/src/main/java/org/ObjectLayout/intrinsifiable/AbstractPrimitiveCharArray.java:49-60 | after `_set((int) index, value)` for `index < Integer.MAX_VALUE`, there is no `return`, so the partition store runs too. For `0 <= index < Integer.MAX_VALUE` the rebased index is a small negative number, the partition number is negative, and the store throws `ArrayIndexOutOfBoundsException`. | `_set(0L, v)` on any array of length at least 1 | return after the int-block store, as `_get(long)` does | high, not executed | PrimitiveCharArray.SetLongAsWrittenThrows | PrimitiveCharArray.SetLongThenGet |
