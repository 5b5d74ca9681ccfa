// Bump allocator with power-of-two alignment
// (engine/src/memory/linear_allocator.c).
//
// The allocator's state is {total_size, allocated, memory}: `memory` is the
// address of the first managed byte (just behind the state), and every
// allocation bumps `allocated` by the request plus the padding that aligns
// the returned address.
module LinearAllocator {
  import opened Wrappers
  import Utils

  /** sizeof(internal_state) on a 64-bit target: two u64 and a pointer. */
  const STATE_SIZE: nat := 24

  /** The bytes linear_allocator_create asks for: its state, then the managed bytes. */
  function MemoryRequirement(total: nat): (r: nat)
    ensures r - total == STATE_SIZE
  {
    STATE_SIZE + total
  }

  /** Whether x is a power of two: the test alignment != 0 && (alignment & (alignment - 1)) == 0. */
  predicate IsPowerOfTwo(x: nat)
    decreases x
  {
    x == 1 || (x >= 2 && x % 2 == 0 && IsPowerOfTwo(x / 2))
  }

  /** (raw + mask) & ~mask with mask = alignment - 1: raw rounded up to a multiple of alignment. */
  function AlignUp(raw: nat, alignment: nat): nat
    requires alignment > 0
  {
    (raw + alignment - 1) / alignment * alignment
  }

  /** The aligned address is the least multiple of alignment at or above raw. */
  lemma AlignUpIsLeastMultiple(raw: nat, alignment: nat)
    requires alignment > 0
    ensures AlignUp(raw, alignment) % alignment == 0
    ensures raw <= AlignUp(raw, alignment) < raw + alignment
    ensures forall m: nat :: raw <= m * alignment ==> AlignUp(raw, alignment) <= m * alignment
  {
    var q := (raw + alignment - 1) / alignment;
    var r := (raw + alignment - 1) % alignment;
    assert raw + alignment - 1 == q * alignment + r;
    assert AlignUp(raw, alignment) == q * alignment;
    MulModZero(q, alignment);
    forall m: nat | raw <= m * alignment ensures q * alignment <= m * alignment {
      Utils.MulOrder(m, q, alignment);
    }
  }

  /** A multiple of a leaves no remainder. */
  lemma MulModZero(q: nat, a: nat)
    requires a > 0
    ensures (q * a) % a == 0
  {
    var x := q * a;
    var d, m := x / a, x % a;
    assert x == d * a + m;
    if d < q {
      assert (q - d) * a == m;
      Utils.MulAtLeast(q - d, a);
    } else if d > q {
      assert (d - q) * a + m == 0;
      Utils.MulAtLeast(d - q, a);
    }
  }

  class Allocator {
    var totalSize: nat
    var allocatedBytes: nat
    /** Address of the first managed byte (0 after destroy). */
    var memory: nat

    ghost predicate Valid()
      reads this
    {
      allocatedBytes <= totalSize
    }

    /** linear_allocator_create with memory supplied: nothing allocated yet. */
    constructor (total: nat, memory: nat)
      ensures Valid() && totalSize == total && allocatedBytes == 0 && this.memory == memory
    {
      totalSize := total;
      allocatedBytes := 0;
      this.memory := memory;
    }

    /**
     * linear_allocator_allocate: None for an alignment that is 0 or not a
     * power of two, and when the request plus its padding does not fit in
     * what is left; otherwise the least multiple of alignment at or above
     * memory + allocated, with allocated bumped by size + padding. The block
     * handed out lies inside the managed bytes and after every earlier block.
     */
    method Allocate(size: nat, alignment: nat) returns (r: Option<nat>)
      requires Valid()
      modifies this
      ensures Valid() && totalSize == old(totalSize) && memory == old(memory)
      ensures !IsPowerOfTwo(alignment) ==> r == None && allocatedBytes == old(allocatedBytes)
      ensures IsPowerOfTwo(alignment) ==>
        var aligned := AlignUp(memory + old(allocatedBytes), alignment);
        var padding := aligned - (memory + old(allocatedBytes));
        if old(allocatedBytes) + size + padding > totalSize then r == None && allocatedBytes == old(allocatedBytes)
        else r == Some(aligned) && allocatedBytes == old(allocatedBytes) + size + padding
      ensures r.Some? ==> r.value % alignment == 0 && memory + old(allocatedBytes) <= r.value
      ensures r.Some? ==> r.value + size == memory + allocatedBytes && allocatedBytes <= totalSize
    {
      if alignment == 0 || !IsPowerOfTwo(alignment) {
        return None;
      }
      var raw := memory + allocatedBytes;
      var aligned := AlignUp(raw, alignment);
      AlignUpIsLeastMultiple(raw, alignment);
      var padding := aligned - raw;
      var total := size + padding;
      if allocatedBytes + total > totalSize {
        return None;
      }
      allocatedBytes := allocatedBytes + total;
      r := Some(aligned);
    }

    /** linear_allocator_free_all: everything is available again. */
    method FreeAll()
      requires Valid()
      modifies this
      ensures Valid() && allocatedBytes == 0
      ensures totalSize == old(totalSize) && memory == old(memory)
    {
      allocatedBytes := 0;
    }

    /** linear_allocator_destroy: every field of the state is zeroed. */
    method Destroy()
      modifies this
      ensures Valid() && totalSize == 0 && allocatedBytes == 0 && memory == 0
    {
      totalSize, allocatedBytes, memory := 0, 0, 0;
    }
  }

  /** A power of two is 2^k for some k, so the aligned addresses are those the C mask computes. */
  lemma {:induction false} PowerOfTwoIsPow(x: nat)
    requires IsPowerOfTwo(x)
    ensures exists k: nat :: Utils.Pow2(k) == x
    decreases x
  {
    if x == 1 {
      assert Utils.Pow2(0) == 1;
    } else {
      PowerOfTwoIsPow(x / 2);
      var k: nat :| Utils.Pow2(k) == x / 2;
      assert Utils.Pow2(k + 1) == x;
    }
  }

  /** Every 2^k passes the alignment test. */
  lemma {:induction false} PowIsPowerOfTwo(k: nat)
    ensures IsPowerOfTwo(Utils.Pow2(k))
  {
    if k > 0 {
      PowIsPowerOfTwo(k - 1);
      assert Utils.Pow2(k) / 2 == Utils.Pow2(k - 1);
    }
  }

  // ------------------------------------------------------------ as written

  /**
   * The bound test of linear_allocator_allocate as written: size + padding
   * and allocated + that sum are computed in u64 and wrap.
   */
  predicate FitsAsWritten(allocatedBytes: nat, totalSize: nat, size: nat, padding: nat)
  {
    (allocatedBytes + (size + padding) % U64_LIMIT) % U64_LIMIT <= totalSize
  }

  /** The intended bound test: the request and its padding fit in what is left. */
  predicate Fits(allocatedBytes: nat, totalSize: nat, size: nat, padding: nat)
  {
    allocatedBytes + size + padding <= totalSize
  }

  /**
   * With 10 of 100 bytes allocated, a request for 2^64 - 5 bytes wraps the
   * sum to 5 and passes the written test; the intended test refuses it.
   */
  lemma AllocateBoundWraps()
    ensures FitsAsWritten(10, 100, U64_LIMIT - 5, 0)
    ensures !Fits(10, 100, U64_LIMIT - 5, 0)
  {
  }
}
