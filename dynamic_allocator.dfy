// Base-plus-offset allocator over the free list
// (engine/src/memory/dynamic_allocator.c).
//
// The allocator's state holds a free list of total_size bytes and the
// address `memory` of the managed bytes. A block's address is memory plus
// the offset the free list hands out; freeing turns the address back into
// an offset. The free list takes u32 sizes and offsets, so the u64 values
// the allocator is given are truncated on the way in.
module DynamicAllocator {
  import opened Wrappers
  import opened Freelist

  /** sizeof(internal_state): the embedded freelist {void *memory} and the memory pointer. */
  const DYNAMIC_STATE_SIZE: nat := 16

  /**
   * dynamic_allocator_create's requirement: its state, the free list's
   * requirement for the size as freelist_create receives it (a u32), and
   * the managed bytes themselves.
   */
  function Requirement(total: nat): (r: nat)
    requires IsU64(total)
    ensures r >= DYNAMIC_STATE_SIZE + Freelist.STATE_SIZE + total
    ensures IsU32(total) ==> r == DYNAMIC_STATE_SIZE + Freelist.MemoryRequirement(total) + total
  {
    DYNAMIC_STATE_SIZE + Freelist.MemoryRequirement(total % U32_LIMIT) + total
  }

  /** The u32 the free list sees for a u64 size. */
  function ToU32(x: int): (r: nat)
    ensures IsU32(r) && (IsU32(x) ==> r == x)
  {
    x % U32_LIMIT
  }

  class Allocator {
    var list: FreeList
    /** Address of the first managed byte. */
    var memory: nat

    ghost predicate Valid()
      reads this, list
    {
      list.Valid()
    }

    /** The managed size. */
    function TotalSize(): nat
      reads this, list
    {
      list.totalSize
    }

    /**
     * dynamic_allocator_create with memory supplied: the free list holds
     * one free range over total_size bytes as freelist_create receives it,
     * truncated to a u32.
     */
    constructor (total: nat, memory: nat)
      requires IsU64(total) && ToU32(total) >= 2 * POINTER_SIZE
      ensures Valid() && fresh(list) && this.memory == memory
      ensures list.totalSize == ToU32(total) && Sum(list.list) == ToU32(total)
      ensures IsU32(total) ==> list.totalSize == total
      ensures list.list == [Node(0, 0, ToU32(total))]
    {
      list := new FreeList(ToU32(total));
      this.memory := memory;
      new;
      FreshInv(ToU32(total));
    }

    /**
     * dynamic_allocator_allocate: the free list's first fit for the size
     * (truncated to u32), as an address behind memory; None, with nothing
     * changed, when no free range is large enough. The block was wholly free
     * and no longer is; the free space drops by its size.
     */
    method Allocate(size: nat) returns (r: Option<nat>)
      requires Valid() && IsU64(size)
      modifies list
      ensures Valid() && list.totalSize == old(list.totalSize)
      ensures r.Some? <==> FirstFit(old(list.list), ToU32(size)) >= 0
      ensures r.Some? ==> r.value == memory + old(list.list)[FirstFit(old(list.list), ToU32(size))].offset
      ensures r.Some? ==> (list.list, list.spare) == Allocated(old(list.list), old(list.spare), FirstFit(old(list.list), ToU32(size)), ToU32(size))
      ensures r.Some? ==> Sum(list.list) + ToU32(size) == old(Sum(list.list))
      ensures r.Some? ==> AllFree(old(list.list), r.value - memory, r.value - memory + ToU32(size))
      ensures r.Some? ==> FreeMinus(list.list, old(list.list), r.value - memory, r.value - memory + ToU32(size))
      ensures r.None? ==> list.list == old(list.list) && list.spare == old(list.spare)
    {
      var ok, offset := list.AllocateBlock(ToU32(size));
      if !ok {
        return None;
      }
      r := Some(memory + offset);
    }

    /**
     * dynamic_allocator_free: the block's offset is its address minus
     * memory, truncated to u32, and the free list decides. On success the
     * block's bytes become free again and the free space grows by its size.
     */
    method Free(block: int, size: nat) returns (ok: bool)
      requires Valid() && IsU64(size)
      modifies list
      ensures Valid() && list.totalSize == old(list.totalSize)
      ensures var off := ToU32(block - memory);
        ok <==> FreeGuard(old(list.list), list.totalSize, ToU32(size), off)
                && (NeedsNode(old(list.list), ToU32(size), off) ==> old(list.spare) != [])
      ensures ok ==> FreePlus(list.list, old(list.list), ToU32(block - memory), ToU32(block - memory) + ToU32(size))
      ensures ok ==> Sum(list.list) == old(Sum(list.list)) + ToU32(size)
      ensures !ok ==> list.list == old(list.list) && list.spare == old(list.spare)
    {
      ok := list.FreeBlock(ToU32(size), ToU32(block - memory));
    }

    /** dynamic_allocator_free_space: the free list's free space. */
    method FreeSpace() returns (free: nat)
      requires Valid()
      ensures free == Sum(list.list)
    {
      free := list.FreeSpace();
    }
  }

  /**
   * Two live blocks never share a byte: the second came from bytes that
   * were still free after the first was taken out of the free bytes.
   */
  lemma LiveBlocksDisjoint(rs0: seq<Node>, rs1: seq<Node>, lo1: nat, hi1: nat, lo2: nat, hi2: nat)
    requires lo1 < hi1 && lo2 < hi2
    requires FreeMinus(rs1, rs0, lo1, hi1) && AllFree(rs1, lo2, hi2)
    ensures hi2 <= lo1 || hi1 <= lo2
  {
    var x := if lo1 <= lo2 then lo2 else lo1;
    assert lo2 <= x < hi2 ==> InFree(rs1, x);
  }

  /**
   * After a block of n bytes is freed, a request for n bytes is served
   * (the freed bytes form a free run) and takes the free space back down to
   * what it was before the free.
   */
  lemma FreeThenRefit(rs: seq<Node>, spare: seq<nat>, total: nat, max: nat, n: nat, off: nat)
    requires Inv(rs, spare, total, max) && n > 0
    requires Freed(rs, spare, total, n, off).Some?
    ensures FirstFit(Freed(rs, spare, total, n, off).value.0, n) >= 0
    ensures Sum(Freed(rs, spare, total, n, off).value.0) == Sum(rs) + n
  {
    var after := Freed(rs, spare, total, n, off).value;
    FreedCorrect(rs, spare, total, max, n, off);
    assert AllFree(after.0, off, off + n);
    FreeRunFits(after.0, off, n);
  }

  /**
   * With 1024 bytes, three 100-byte blocks come from offsets 0, 100 and
   * 200; freeing the middle one succeeds while a spare node is left, and a
   * new request for 100 bytes gets offset 100 back, leaving 1024 - 300
   * bytes free.
   */
  lemma MiddleHoleReused(spare: seq<nat>)
    requires spare != []
    ensures var s1 := Allocated([Node(0, 0, 1024)], spare, 0, 100);
      var s2 := Allocated(s1.0, s1.1, 0, 100);
      var s3 := Allocated(s2.0, s2.1, 0, 100);
      s1.0 == [Node(0, 100, 924)] && s2.0 == [Node(0, 200, 824)] && s3.0 == [Node(0, 300, 724)]
      && Freed(s3.0, s3.1, 1024, 100, 100).Some?
      && var s4 := Freed(s3.0, s3.1, 1024, 100, 100).value;
      FirstFit(s4.0, 100) == 0 && s4.0[0].offset == 100
      && Sum(Allocated(s4.0, s4.1, 0, 100).0) == 1024 - 300
  {
    var rs := [Node(0, 300, 724)];
    FirstAtOrAfterIs(rs, 100, 0);
    assert FreeGuard(rs, 1024, 100, 100);
    FreedInsert(rs, spare, 1024, 100, 100, 0);
    assert rs[..0] + [Node(spare[0], 100, 100)] + rs[0..] == [Node(spare[0], 100, 100), Node(0, 300, 724)];
    assert Freed(rs, spare, 1024, 100, 100) == Some(([Node(spare[0], 100, 100), Node(0, 300, 724)], spare[1..]));
    var s4 := [Node(spare[0], 100, 100), Node(0, 300, 724)];
    assert Allocated(s4, spare[1..], 0, 100).0 == [Node(0, 300, 724)];
  }
}
