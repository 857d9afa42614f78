/**
 * The copy constructor of the primitive array, over a heap of Java array objects. The value
 * model of `PrimitiveCharArray` cannot say whether two arrays share storage, so here an array
 * object holds references to its int block and to its partitions, and the heap maps each
 * reference to the current contents of that one-dimensional Java array. A store goes through a
 * reference, so every array object holding that reference sees it.
 */
module CopyConstruction {
  import opened JavaInts
  import opened PartitionedIndex
  import opened PrimitiveCharArray

  /** A reference to a one-dimensional Java array. */
  type Ref = nat

  /** The contents of every allocated one-dimensional array, indexed by its reference. */
  type Heap<T> = seq<seq<T>>

  /** A primitive array object: its length and the references to its int block and its partitions. */
  datatype ArrayObject = ArrayObject(length: int, intAddressable: Ref, longAddressable: seq<Ref>)

  predicate Allocated<T>(h: Heap<T>, o: ArrayObject) {
    && o.intAddressable < |h|
    && forall k :: 0 <= k < |o.longAddressable| ==> o.longAddressable[k] < |h|
  }

  /** The array value the object denotes in heap `h`. */
  function View<T>(h: Heap<T>, o: ArrayObject): PrimitiveArray<T>
    requires Allocated(h, o)
  {
    PrimitiveArray(o.length, h[o.intAddressable],
      seq(|o.longAddressable|, k requires 0 <= k < |o.longAddressable| => h[o.longAddressable[k]]))
  }

  /** Whether `r` is the int block or one of the partitions of `o`. */
  predicate Owns(o: ArrayObject, r: Ref) {
    r == o.intAddressable || r in o.longAddressable
  }

  /** No Java array serves as two of the object's blocks. */
  predicate Unshared(o: ArrayObject) {
    && o.intAddressable !in o.longAddressable
    && forall i, j :: 0 <= i < j < |o.longAddressable| ==> o.longAddressable[i] != o.longAddressable[j]
  }

  /**
   * The copy constructor: clones the int block, allocates a new partition table of the same
   * size and clones each partition into it in order. Nothing already allocated changes, the
   * copy denotes the same array value as the source, and every block of the copy is new.
   */
  method CopyConstruct<T>(h: Heap<T>, source: ArrayObject) returns (h': Heap<T>, copy: ArrayObject)
    requires Allocated(h, source)
    ensures |h| <= |h'| && h'[..|h|] == h
    ensures Allocated(h', copy) && View(h', copy) == View(h, source)
    ensures forall r :: Owns(copy, r) ==> |h| <= r
    ensures Unshared(copy)
  {
    var n := |source.longAddressable|;
    var intBlock := |h|;
    h' := h + [h[source.intAddressable]];
    var parts: seq<Ref> := [];
    var i := 0;
    while i < n
      invariant 0 <= i <= n
      invariant |h'| == |h| + 1 + i && h'[..|h|] == h
      invariant h'[intBlock] == h[source.intAddressable]
      invariant |parts| == i
      invariant forall k :: 0 <= k < i ==> parts[k] == |h| + 1 + k
      invariant forall k :: 0 <= k < i ==> h'[parts[k]] == h[source.longAddressable[k]]
    {
      assert (h' + [h[source.longAddressable[i]]])[..|h|] == h'[..|h|];
      parts := parts + [|h'|];
      h' := h' + [h[source.longAddressable[i]]];
      i := i + 1;
    }
    copy := ArrayObject(source.length, intBlock, parts);
    assert View(h', copy).longAddressable == View(h, source).longAddressable;
  }

  /** `array[offset] = v` at a slot, through the object's references. */
  function StoreSlot<T>(h: Heap<T>, o: ArrayObject, s: Slot, v: T): (r: (Heap<T>, Outcome))
    requires Allocated(h, o)
    ensures |r.0| == |h|
    ensures forall q :: 0 <= q < |h| && !Owns(o, q) ==> r.0[q] == h[q]
  {
    match s
    case IntSlot(off) =>
      var b := o.intAddressable;
      if 0 <= off < |h[b]| then (h[b := h[b][off := v]], Normal) else (h, Thrown(ArrayIndexOutOfBounds))
    case PartSlot(p, off) =>
      if 0 <= p < |o.longAddressable| && 0 <= off < |h[o.longAddressable[p]]| then
        var b := o.longAddressable[p];
        (h[b := h[b][off := v]], Normal)
      else
        (h, Thrown(ArrayIndexOutOfBounds))
  }

  /**
   * On an object whose blocks are all distinct, a store through the references changes the
   * denoted value exactly as the value-level store does.
   */
  lemma StoreSlotMatchesWriteSlot<T>(h: Heap<T>, o: ArrayObject, s: Slot, v: T)
    requires Allocated(h, o) && Unshared(o)
    ensures Allocated(StoreSlot(h, o, s, v).0, o)
    ensures StoreSlot(h, o, s, v).1 == WriteSlot(View(h, o), s, v).outcome
    ensures View(StoreSlot(h, o, s, v).0, o) == WriteSlot(View(h, o), s, v).state
  {
  }

  /**
   * A store through one object leaves unchanged the value of any object that shares no block
   * with it; in particular a store into the source of a copy leaves the copy unchanged, and
   * the other way round.
   */
  lemma StoreSlotFrame<T>(h: Heap<T>, o: ArrayObject, other: ArrayObject, s: Slot, v: T)
    requires Allocated(h, o) && Allocated(h, other)
    requires forall r :: Owns(other, r) ==> !Owns(o, r)
    ensures Allocated(StoreSlot(h, o, s, v).0, other)
    ensures View(StoreSlot(h, o, s, v).0, other) == View(h, other)
  {
  }

  /** The copy shares no block with its source: the copy's blocks are new, the source's are old. */
  lemma CopySharesNothing<T>(h: Heap<T>, source: ArrayObject, copy: ArrayObject)
    requires Allocated(h, source)
    requires forall r :: Owns(copy, r) ==> |h| <= r
    ensures forall r :: Owns(copy, r) ==> !Owns(source, r)
    ensures forall r :: Owns(source, r) ==> !Owns(copy, r)
  {
  }

  /** An object's value is unchanged by allocating further arrays. */
  lemma ViewOfExtension<T>(h: Heap<T>, h': Heap<T>, o: ArrayObject)
    requires Allocated(h, o) && |h| <= |h'| && h'[..|h|] == h
    ensures Allocated(h', o) && View(h', o) == View(h, o)
  {
    assert forall r :: 0 <= r < |h| ==> h'[r] == h'[..|h|][r];
    assert View(h', o).longAddressable == View(h, o).longAddressable;
  }

  /**
   * Copies `source`, then stores `v` at slot `s` of the copy or of the source. The other object
   * still denotes what the source denoted before the copy, and a store into the copy changes the
   * copy as the value-level store does.
   */
  method CopyThenStore<T>(h: Heap<T>, source: ArrayObject, s: Slot, v: T, intoCopy: bool)
    returns (h': Heap<T>, copy: ArrayObject, outcome: Outcome)
    requires Allocated(h, source)
    ensures Allocated(h', source) && Allocated(h', copy)
    ensures intoCopy ==> View(h', source) == View(h, source)
    ensures intoCopy ==> outcome == WriteSlot(View(h, source), s, v).outcome
    ensures intoCopy ==> View(h', copy) == WriteSlot(View(h, source), s, v).state
    ensures !intoCopy ==> View(h', copy) == View(h, source)
  {
    var h1;
    h1, copy := CopyConstruct(h, source);
    ViewOfExtension(h, h1, source);
    CopySharesNothing(h, source, copy);
    if intoCopy {
      StoreSlotFrame(h1, copy, source, s, v);
      StoreSlotMatchesWriteSlot(h1, copy, s, v);
      h', outcome := StoreSlot(h1, copy, s, v).0, StoreSlot(h1, copy, s, v).1;
    } else {
      StoreSlotFrame(h1, source, copy, s, v);
      h', outcome := StoreSlot(h1, source, s, v).0, StoreSlot(h1, source, s, v).1;
    }
  }

  /**
   * `_asArray()`: the reference to the int block itself, not a clone, refused with
   * `IllegalStateException` for arrays longer than `Integer.MAX_VALUE`. It agrees with the
   * value-level `AsArray`.
   */
  function ExportBlock<T>(h: Heap<T>, o: ArrayObject): (r: Result<Ref>)
    requires Allocated(h, o)
    ensures r.Ok? ==> Owns(o, r.value) && r.value < |h|
    ensures AsArray(View(h, o)) == (if r.Ok? then Ok(h[r.value]) else Err(r.error))
  {
    if o.length > IntMax then Err(IllegalState) else Ok(o.intAddressable)
  }

  /**
   * The exported block stays live: a store through the array object shows in it, and a Java
   * store into the exported `char[]` changes the array object as `_set(int)` would.
   */
  lemma ExportedBlockIsLive<T>(h: Heap<T>, o: ArrayObject, k: int, v: T)
    requires Allocated(h, o) && Unshared(o) && ExportBlock(h, o).Ok?
    ensures var b := ExportBlock(h, o).value;
      StoreSlot(h, o, IntSlot(k), v).0[b] == if 0 <= k < |h[b]| then h[b][k := v] else h[b]
    ensures var b := ExportBlock(h, o).value;
      0 <= k < |h[b]| ==>
        && Allocated(h[b := h[b][k := v]], o)
        && View(h[b := h[b][k := v]], o) == WriteSlot(View(h, o), IntSlot(k), v).state
  {
  }
}
