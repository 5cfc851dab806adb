/**
 * The growable buffer under the Brainfuck toolchain (brainfuck/vec.c).
 *
 * A vec_t owns `capacity` slots of `item_size` bytes at `ptr`, and `len` of
 * them are in use. The model keeps the items written so far as `data`, so
 * `len` is `|data|`, and it keeps the number of allocated slots as `capacity`.
 * The two are deliberately not tied together: vec_extend_from_slice can write
 * past the allocation, and the model records that as `|data| > capacity`
 * instead of ruling it out. Whether malloc/realloc succeed is a parameter
 * (`allocOk`), and `hasBuffer` says whether `ptr` is non-NULL.
 */
module BfVec {
  import opened Wrappers

  /** errno values returned negated by vec.c. */
  const ENOMEM: int := 12
  const EINVAL: int := 22

  /** The (len, capacity) pair of a vec: the part of its state that growth is about. */
  datatype Dims = Dims(len: nat, cap: nat)

  /** Every item in use lies inside the allocation. */
  predicate InBounds(d: Dims) { d.len <= d.cap }

  /**
   * Capacity after the grow step that vec_push and vec_extend_from_slice run
   * before they copy (realloc succeeding): doubled when full, else kept.
   */
  function Grown(d: Dims): nat { if d.len == d.cap then 2 * d.cap else d.cap }

  /** Dims after a successful vec_push. */
  function PushDims(d: Dims): Dims { Dims(d.len + 1, Grown(d)) }

  /** Dims after a successful vec_extend_from_slice of n items. */
  function ExtendDims(d: Dims, n: nat): Dims { Dims(d.len + n, Grown(d)) }

  /** Dims after n successful pushes. */
  function Pushes(d: Dims, n: nat): Dims
    decreases n
  {
    if n == 0 then d else Pushes(PushDims(d), n - 1)
  }

  /** Pushing alone never overruns a buffer that starts with room. */
  lemma {:induction false} PushesStayInBounds(d: Dims, n: nat)
    requires InBounds(d) && d.cap > 0
    ensures Pushes(d, n).len == d.len + n
    ensures InBounds(Pushes(d, n)) && Pushes(d, n).cap >= d.cap
    decreases n
  {
    if n > 0 {
      PushesStayInBounds(PushDims(d), n - 1);
    }
  }

  /** A capacity of 0 doubles to 0: the vec never grows and every push overruns. */
  lemma {:induction false} ZeroCapacityNeverGrows(d: Dims, n: nat)
    requires d.cap == 0
    ensures Pushes(d, n).cap == 0 && Pushes(d, n).len == d.len + n
    ensures n > 0 ==> !InBounds(Pushes(d, n))
    decreases n
  {
    if n > 0 {
      ZeroCapacityNeverGrows(PushDims(d), n - 1);
    }
  }

  /**
   * An extend stays inside the allocation exactly when the n items fit in
   * the room left, where a full buffer has first been doubled once.
   */
  lemma ExtendInBoundsIff(d: Dims, n: nat)
    requires InBounds(d)
    ensures InBounds(ExtendDims(d, n)) <==>
      (if d.len == d.cap then n <= d.cap else d.len + n <= d.cap)
  {
  }

  /** Once len exceeds capacity, len == capacity never holds again, so neither call grows. */
  lemma OverrunIsPermanent(d: Dims, n: nat)
    requires !InBounds(d)
    ensures Grown(d) == d.cap
    ensures !InBounds(PushDims(d)) && !InBounds(ExtendDims(d, n))
  {
  }

  class Vec<T> {
    /** The items at ptr[0 .. len). */
    var data: seq<T>
    var itemSize: nat
    var capacity: nat
    /** ptr != NULL */
    var hasBuffer: bool

    function Size(): Dims
      reads this
    {
      Dims(|data|, capacity)
    }

    /** Storage for a vec_t before vec_new has run. */
    constructor ()
      ensures data == [] && itemSize == 0 && capacity == 0 && !hasBuffer
    {
      data := [];
      itemSize := 0;
      capacity := 0;
      hasBuffer := false;
    }

    /** vec_new: allocate `capacity` slots; on failure only ptr is written. */
    method New(itemSize: nat, capacity: nat, allocOk: bool) returns (ret: int)
      modifies this
      ensures ret == (if allocOk then 0 else -ENOMEM)
      ensures hasBuffer == allocOk
      ensures allocOk ==> data == [] && this.itemSize == itemSize && this.capacity == capacity
      ensures !allocOk ==>
        data == old(data) && this.itemSize == old(this.itemSize) && this.capacity == old(this.capacity)
    {
      hasBuffer := allocOk;
      if !allocOk {
        return -ENOMEM;
      }
      this.itemSize := itemSize;
      data := [];
      this.capacity := capacity;
      return 0;
    }

    /** vec_free */
    method Free()
      modifies this
      ensures !hasBuffer && data == [] && capacity == 0 && itemSize == old(itemSize)
    {
      hasBuffer := false;
      data := [];
      capacity := 0;
    }

    /** vec_resize: reallocate to `newSize` slots; len is not touched. */
    method Resize(newSize: nat, allocOk: bool) returns (ret: int)
      modifies this
      ensures ret == (if allocOk then 0 else -ENOMEM)
      ensures data == old(data) && itemSize == old(itemSize)
      ensures capacity == (if allocOk then newSize else old(capacity))
      ensures hasBuffer == (allocOk || old(hasBuffer))
    {
      if !allocOk {
        return -ENOMEM;
      }
      hasBuffer := true;
      capacity := newSize;
      return 0;
    }

    /** vec_push: double a full buffer, then append one item. */
    method Push(item: T, allocOk: bool) returns (ret: int)
      modifies this
      ensures ret == (if old(|data|) == old(capacity) && !allocOk then -ENOMEM else 0)
      ensures ret == 0 ==> data == old(data) + [item] && Size() == PushDims(old(Size()))
      ensures ret != 0 ==> data == old(data) && capacity == old(capacity)
      ensures itemSize == old(itemSize)
    {
      if |data| == capacity {
        ret := Resize(capacity * 2, allocOk);
        if ret != 0 {
          return;
        }
      }
      data := data + [item];
      ret := 0;
    }

    /** vec_pop: take the last item out into the caller's `dest`; an empty vec leaves `dest` as it was. */
    method Pop(dest: T) returns (ret: int, item: T)
      modifies this
      ensures old(data) == [] ==> ret == -EINVAL && item == dest && data == old(data)
      ensures old(data) != [] ==> ret == 0 && old(data) == data + [item]
      ensures capacity == old(capacity) && itemSize == old(itemSize) && hasBuffer == old(hasBuffer)
    {
      if |data| == 0 {
        return -EINVAL, dest;
      }
      item := data[|data| - 1];
      data := data[..|data| - 1];
      ret := 0;
    }

    /** vec_get: the slot at `index`, or NULL (None) past len. */
    method Get(index: nat) returns (slot: Option<T>)
      ensures slot.None? <==> index >= |data|
      ensures slot.Some? ==> index < |data| && slot.value == data[index]
    {
      if index >= |data| {
        return None;
      }
      return Some(data[index]);
    }

    /**
     * vec_extend_from_slice: grows once, only when full, then copies the
     * whole slice. It copies `len` bytes, so it is only meaningful for
     * vecs of 1-byte items, which is how the compiler uses it.
     */
    method ExtendFromSlice(slice: seq<T>, allocOk: bool) returns (ret: int)
      requires itemSize == 1
      modifies this
      ensures ret == (if old(|data|) == old(capacity) && !allocOk then -ENOMEM else 0)
      ensures ret == 0 ==> data == old(data) + slice && Size() == ExtendDims(old(Size()), |slice|)
      ensures ret != 0 ==> data == old(data) && capacity == old(capacity)
      ensures itemSize == old(itemSize)
    {
      if |data| == capacity {
        ret := Resize(capacity * 2, allocOk);
        if ret != 0 {
          return;
        }
      }
      data := data + slice;
      ret := 0;
    }
  }
}
