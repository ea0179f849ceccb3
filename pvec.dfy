/** `Pvec`, the program's growable vector of pointers, grown 1024 slots at a
    time with `realloc`. */
module PointerVector {
  import opened Memory

  /** The largest `size_t` on a 64-bit target; `pvec_push` returns it on failure. */
  const SIZE_MAX: nat := 0xFFFF_FFFF_FFFF_FFFF

  /** How many slots a full vector gains when it grows. */
  const GrowthStep: nat := 1024

  class Pvec<T(0)> {
    var capacity: nat
    var size: nat
    /** The allocated block; its length is the number of slots really allocated. */
    var vec: array<T>

    /** The vector's invariant: the used slots fit in the capacity, and the
        capacity is what was really allocated. */
    ghost predicate Valid()
      reads this
    {
      size <= capacity && capacity == vec.Length
    }

    /** What a push relies on: either it will grow the block, or the slot at
        `size` is really allocated. */
    ghost predicate PushSafe()
      reads this
    {
      size <= capacity && (size < capacity ==> size < vec.Length)
    }

    /** The stored elements, in index order. */
    ghost function Contents(): seq<T>
      reads this, vec
      requires size <= vec.Length
    {
      vec[..size]
    }

    /** `Pvec input = { 0 }`: no slots, nothing stored. */
    constructor ()
      ensures Valid() && fresh(vec)
      ensures capacity == 0 && Contents() == []
    {
      capacity := 0;
      size := 0;
      vec := new T[0];
    }

    /** `pvec_push` as the source writes it: the capacity is raised before the
        reallocation is known to succeed. On failure the vector is left with
        a capacity larger than its block, so the next push would write past
        the end of the block. */
    method PushAsWritten(p: T, mem: Allocator) returns (idx: nat)
      requires Valid()
      modifies this, vec, mem
      ensures size <= capacity
      ensures old(size) < old(capacity) ==>
        Valid() && idx == old(size) && Contents() == old(Contents()) + [p]
        && capacity == old(capacity) && vec == old(vec) && mem.failures == old(mem.failures)
      ensures old(size) == old(capacity) ==>
        (Valid() && idx == old(size) && Contents() == old(Contents()) + [p]
         && capacity == old(capacity) + GrowthStep && fresh(vec) && mem.failures == old(mem.failures))
        || (idx == SIZE_MAX && size == old(size) && vec == old(vec) && Contents() == old(Contents())
            && capacity == old(capacity) + GrowthStep && mem.failures == old(mem.failures) + 1 && !PushSafe())
    {
      if size == capacity {
        capacity := capacity + GrowthStep;
        var tmp := mem.Realloc(vec, capacity);
        if tmp == null {
          return SIZE_MAX;
        }
        vec := tmp;
      }
      vec[size] := p;
      size := size + 1;
      return size - 1;
    }

    /** `pvec_push` with the capacity raised only once the larger block is in
        hand: on failure nothing changes, so the vector stays valid. Stores `p`
        at the old size and returns that index, growing by 1024 slots exactly
        when the vector is full; it fails only when that growth fails. */
    method Push(p: T, mem: Allocator) returns (idx: nat)
      requires Valid()
      modifies this, vec, mem
      ensures Valid()
      ensures old(size) < old(capacity) ==>
        idx == old(size) && Contents() == old(Contents()) + [p]
        && capacity == old(capacity) && vec == old(vec) && mem.failures == old(mem.failures)
      ensures old(size) == old(capacity) ==>
        (idx == old(size) && Contents() == old(Contents()) + [p]
         && capacity == old(capacity) + GrowthStep && fresh(vec) && mem.failures == old(mem.failures))
        || (idx == SIZE_MAX && unchanged(this) && Contents() == old(Contents())
            && mem.failures == old(mem.failures) + 1)
      ensures idx != SIZE_MAX ==> Contents() == old(Contents()) + [p] && mem.failures == old(mem.failures)
      ensures idx == SIZE_MAX ==>
        (Contents() == old(Contents()) && mem.failures == old(mem.failures) + 1)
        || (old(size) == SIZE_MAX && Contents() == old(Contents()) + [p] && mem.failures == old(mem.failures))
      ensures vec == old(vec) || fresh(vec)
    {
      if size == capacity {
        var tmp := mem.Realloc(vec, capacity + GrowthStep);
        if tmp == null {
          return SIZE_MAX;
        }
        capacity := capacity + GrowthStep;
        vec := tmp;
      }
      vec[size] := p;
      size := size + 1;
      return size - 1;
    }
  }
}
