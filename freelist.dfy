// First-fit offset free list with coalescing (engine/src/containers/freelist.c).
//
// The C list lives in a fixed array of max_entries nodes. A node is either
// on the list of free ranges, which starts at head and is kept in offset
// order, or on the chain of spare nodes, which starts at free_node_head.
// The model keeps the two chains as sequences: `list` holds the free ranges
// in chain order, each tagged with the index of the node that stores it, and
// `spare` holds the node indices of the spare chain from its head. get_node
// pops the head of `spare` and return_node pushes onto it.
module Freelist {
  import opened Wrappers

  /** Sizes on a 64-bit target: a pointer, a node {u32, u32, pointer}, the state {u32, u32, 3 pointers}. */
  const POINTER_SIZE: nat := 8
  const NODE_SIZE: nat := 16
  const STATE_SIZE: nat := 32

  /** A free range [offset, offset + size) stored in node `id`. */
  datatype Node = Node(id: nat, offset: nat, size: nat)

  function End(n: Node): nat { n.offset + n.size }

  predicate Covers(n: Node, x: int) { n.offset <= x < End(n) }

  /** max_entries: one node per pointer-sized unit of the managed size. */
  function MaxEntries(total: nat): nat { total / POINTER_SIZE }

  /** The bytes freelist_create asks for: its state plus max_entries nodes. */
  function MemoryRequirement(total: nat): (r: nat)
    ensures r >= STATE_SIZE && r <= STATE_SIZE + 2 * total
  {
    STATE_SIZE + NODE_SIZE * MaxEntries(total)
  }

  // ------------------------------------------------------- range sequences

  /** Free ranges in increasing offset order, each ending strictly before the next begins. */
  ghost predicate Gapped(rs: seq<Node>) {
    forall i :: 0 < i < |rs| ==> End(rs[i - 1]) < rs[i].offset
  }

  ghost predicate Within(rs: seq<Node>, total: nat) {
    forall i :: 0 <= i < |rs| ==> End(rs[i]) <= total
  }

  /** Byte x lies in some free range. */
  ghost predicate InFree(rs: seq<Node>, x: int) {
    exists i :: 0 <= i < |rs| && Covers(rs[i], x)
  }

  /** The free space: the sum of the ranges' sizes. */
  function Sum(rs: seq<Node>): nat {
    if rs == [] then 0 else rs[0].size + Sum(rs[1..])
  }

  function Ids(rs: seq<Node>): seq<nat> {
    if rs == [] then [] else [rs[0].id] + Ids(rs[1..])
  }

  /** lo, lo + 1, ..., hi - 1. */
  function Iota(lo: nat, hi: nat): seq<nat>
    decreases hi - lo
  {
    if lo >= hi then [] else [lo] + Iota(lo + 1, hi)
  }

  lemma {:induction false} IotaSnoc(lo: nat, hi: nat)
    requires lo <= hi
    ensures Iota(lo, hi + 1) == Iota(lo, hi) + [hi]
    decreases hi - lo
  {
    if lo < hi { IotaSnoc(lo + 1, hi); }
  }

  lemma {:induction false} SumConcat(a: seq<Node>, b: seq<Node>)
    ensures Sum(a + b) == Sum(a) + Sum(b)
  {
    if a != [] {
      assert (a + b)[1..] == a[1..] + b;
      SumConcat(a[1..], b);
    } else {
      assert a + b == b;
    }
  }

  lemma {:induction false} IdsConcat(a: seq<Node>, b: seq<Node>)
    ensures Ids(a + b) == Ids(a) + Ids(b)
  {
    if a != [] {
      assert (a + b)[1..] == a[1..] + b;
      IdsConcat(a[1..], b);
    } else {
      assert a + b == b;
    }
  }

  lemma InFreeConcat(a: seq<Node>, b: seq<Node>)
    ensures forall x :: InFree(a + b, x) <==> InFree(a, x) || InFree(b, x)
  {
    forall x ensures InFree(a + b, x) <==> InFree(a, x) || InFree(b, x) {
      if InFree(a + b, x) {
        var i :| 0 <= i < |a + b| && Covers((a + b)[i], x);
        if i >= |a| { assert Covers(b[i - |a|], x); }
      }
      if InFree(b, x) {
        var i :| 0 <= i < |b| && Covers(b[i], x);
        assert (a + b)[|a| + i] == b[i];
      }
      if InFree(a, x) {
        var i :| 0 <= i < |a| && Covers(a[i], x);
        assert (a + b)[i] == a[i];
      }
    }
  }

  /** Free bytes, free space and node indices of A + M + B, from those of the parts. */
  lemma Decompose(a: seq<Node>, m: seq<Node>, b: seq<Node>)
    ensures forall x :: InFree(a + m + b, x) <==> InFree(a, x) || InFree(m, x) || InFree(b, x)
    ensures Sum(a + m + b) == Sum(a) + Sum(m) + Sum(b)
    ensures multiset(Ids(a + m + b)) == multiset(Ids(a)) + multiset(Ids(m)) + multiset(Ids(b))
  {
    InFreeConcat(a + m, b);
    InFreeConcat(a, m);
    SumConcat(a + m, b);
    SumConcat(a, m);
    IdsConcat(a + m, b);
    IdsConcat(a, m);
  }

  lemma InFreeSingle(n: Node)
    ensures forall x :: InFree([n], x) <==> Covers(n, x)
    ensures Sum([n]) == n.size && Ids([n]) == [n.id]
  {
    assert forall x :: Covers([n][0], x) ==> InFree([n], x);
  }

  lemma InFreeEmpty()
    ensures forall x :: !InFree([], x)
  {
  }

  /** Any earlier range of gapped ranges ends before any later one begins. */
  lemma {:induction false} GappedPair(rs: seq<Node>, i: nat, j: nat)
    requires Gapped(rs) && i < j < |rs|
    ensures End(rs[i]) < rs[j].offset
    decreases j - i
  {
    if i + 1 < j {
      GappedPair(rs, i, j - 1);
    }
  }

  lemma GappedAll(rs: seq<Node>)
    requires Gapped(rs)
    ensures forall i, j :: 0 <= i < j < |rs| ==> End(rs[i]) < rs[j].offset
  {
    forall i, j | 0 <= i < j < |rs| ensures End(rs[i]) < rs[j].offset {
      GappedPair(rs, i, j);
    }
  }

  /** In gapped ranges, a byte lies in at most one range. */
  lemma GappedExclusive(rs: seq<Node>, i: nat, x: int)
    requires Gapped(rs) && i < |rs| && Covers(rs[i], x)
    ensures forall j :: 0 <= j < |rs| && j != i ==> !Covers(rs[j], x)
  {
    GappedAll(rs);
  }

  lemma GappedSlice(rs: seq<Node>, lo: nat, hi: nat)
    requires Gapped(rs) && lo <= hi <= |rs|
    ensures Gapped(rs[lo..hi])
  {
    assert forall i :: 0 <= i < hi - lo ==> rs[lo..hi][i] == rs[lo + i];
  }

  /** Joining gapped pieces around at most one new range keeps the ranges gapped and in bounds. */
  lemma GappedJoin(a: seq<Node>, m: seq<Node>, b: seq<Node>, total: nat)
    requires Gapped(a) && Gapped(b) && |m| <= 1
    requires |a| > 0 && |m| > 0 ==> End(a[|a| - 1]) < m[0].offset
    requires |m| > 0 && |b| > 0 ==> End(m[0]) < b[0].offset
    requires |a| > 0 && |m| == 0 && |b| > 0 ==> End(a[|a| - 1]) < b[0].offset
    requires Within(a, total) && Within(b, total) && Within(m, total)
    ensures Gapped(a + m + b) && Within(a + m + b, total)
  {
    var rs := a + m + b;
    forall k | 0 < k < |rs| ensures End(rs[k - 1]) < rs[k].offset {
      if k < |a| {
        assert rs[k - 1] == a[k - 1] && rs[k] == a[k];
      } else if k - 1 >= |a| + |m| {
        assert rs[k - 1] == b[k - 1 - |a| - |m|] && rs[k] == b[k - |a| - |m|];
      } else {
        // the two ranges meet at a joint
        assert k - 1 < |a| ==> rs[k - 1] == a[|a| - 1];
        assert k - 1 >= |a| ==> rs[k - 1] == m[0];
        assert k < |a| + |m| ==> rs[k] == m[0];
        assert k >= |a| + |m| ==> rs[k] == b[0];
      }
    }
  }

  /** The first range whose offset is at or after off (|rs| when none is). */
  function FirstAtOrAfter(rs: seq<Node>, off: nat): (i: nat)
    ensures i <= |rs|
    ensures forall k :: 0 <= k < i ==> rs[k].offset < off
    ensures i < |rs| ==> rs[i].offset >= off
  {
    if rs == [] || rs[0].offset >= off then 0
    else 1 + FirstAtOrAfter(rs[1..], off)
  }

  /** The first range that can hold size bytes, or -1. */
  function FirstFit(rs: seq<Node>, size: nat): (i: int)
    ensures -1 <= i < |rs|
    ensures i >= 0 ==> rs[i].size >= size && forall k :: 0 <= k < i ==> rs[k].size < size
    ensures i == -1 <==> forall k :: 0 <= k < |rs| ==> rs[k].size < size
  {
    if rs == [] then -1
    else if rs[0].size >= size then 0
    else
      var t := FirstFit(rs[1..], size);
      assert forall k :: 1 <= k < |rs| ==> rs[k] == rs[1..][k - 1];
      if t < 0 then -1 else t + 1
  }

  /**
   * When freelist_free_block accepts [off, off + size): it ends inside the
   * managed size; no free range starts at off; the block ends at or before
   * the next range; and it starts at or after the end of the previous range.
   */
  ghost predicate FreeGuard(rs: seq<Node>, total: nat, size: nat, off: nat) {
    var i := FirstAtOrAfter(rs, off);
    off + size <= total
    && (i < |rs| ==> rs[i].offset != off && off + size <= rs[i].offset)
    && (i > 0 ==> End(rs[i - 1]) <= off)
  }

  /** Whether freeing [off, off + size) takes a node from the spare chain. */
  ghost predicate NeedsNode(rs: seq<Node>, size: nat, off: nat) {
    var i := FirstAtOrAfter(rs, off);
    if rs == [] then true
    else if i < |rs| then off + size != rs[i].offset
    else End(rs[i - 1]) != off
  }

  /** Every byte of [lo, hi) is free. */
  ghost predicate AllFree(rs: seq<Node>, lo: int, hi: int) {
    forall x :: lo <= x < hi ==> InFree(rs, x)
  }

  /** No byte of [lo, hi) is free. */
  ghost predicate NoneFree(rs: seq<Node>, lo: int, hi: int) {
    forall x :: lo <= x < hi ==> !InFree(rs, x)
  }

  /** The free bytes of rs2 are those of rs without [lo, hi). */
  ghost predicate FreeMinus(rs2: seq<Node>, rs: seq<Node>, lo: int, hi: int) {
    forall x :: InFree(rs2, x) <==> InFree(rs, x) && !(lo <= x < hi)
  }

  /** The free bytes of rs2 are those of rs together with [lo, hi). */
  ghost predicate FreePlus(rs2: seq<Node>, rs: seq<Node>, lo: int, hi: int) {
    forall x :: InFree(rs2, x) <==> InFree(rs, x) || lo <= x < hi
  }

  /** The guard only accepts blocks that lie wholly in allocated memory. */
  lemma FreeGuardSound(rs: seq<Node>, total: nat, size: nat, off: nat)
    requires Gapped(rs) && FreeGuard(rs, total, size, off)
    ensures NoneFree(rs, off, off + size)
  {
    GappedAll(rs);
    var i := FirstAtOrAfter(rs, off);
    forall x, k | off <= x < off + size && 0 <= k < |rs| ensures !Covers(rs[k], x) {
      if k < i - 1 {
        assert End(rs[k]) < rs[i - 1].offset;
      } else if i < k {
        assert End(rs[i]) < rs[k].offset;
      }
    }
  }

  /** With no empty ranges, every block of allocated memory inside the managed size passes the guard. */
  lemma FreeGuardComplete(rs: seq<Node>, total: nat, size: nat, off: nat)
    requires Gapped(rs) && size > 0 && off + size <= total
    requires forall k :: 0 <= k < |rs| ==> rs[k].size > 0
    requires NoneFree(rs, off, off + size)
    ensures FreeGuard(rs, total, size, off)
  {
    var i := FirstAtOrAfter(rs, off);
    if i < |rs| {
      assert Covers(rs[i], rs[i].offset) ==> InFree(rs, rs[i].offset);
    }
    if i > 0 {
      assert rs[i - 1].offset < off;
      assert Covers(rs[i - 1], off) ==> InFree(rs, off);
    }
  }

  /**
   * A run of free bytes [a, a + n) lies inside a single range when ranges
   * are gapped, so first fit finds a range for n bytes.
   */
  lemma FreeRunFits(rs: seq<Node>, a: nat, n: nat)
    requires Gapped(rs) && n > 0 && AllFree(rs, a, a + n)
    ensures FirstFit(rs, n) >= 0
  {
    GappedAll(rs);
    assert InFree(rs, a);
    var i :| 0 <= i < |rs| && Covers(rs[i], a);
    forall j | 0 <= j < |rs| ensures !Covers(rs[j], End(rs[i])) {
      if j < i {
        assert End(rs[j]) < rs[i].offset;
      } else if i < j {
        assert End(rs[i]) < rs[j].offset;
      }
    }
    assert !InFree(rs, End(rs[i]));
    assert rs[i].size >= n;
  }

  ghost predicate GoodList(rs: seq<Node>, total: nat) {
    Gapped(rs) && Within(rs, total)
  }

  /**
   * The state invariant: the managed size fits in u32 and gives at least two
   * nodes; free ranges are gapped and inside [0, total); every one of the
   * max nodes is on exactly one of the two chains.
   */
  ghost predicate Inv(rs: seq<Node>, spare: seq<nat>, total: nat, max: nat) {
    IsU32(total) && max == MaxEntries(total) && max >= 2
    && GoodList(rs, total)
    && multiset(Ids(rs)) + multiset(spare) == multiset(Iota(0, max))
  }

  /**
   * The list and spare chain after first fit has chosen range i for size
   * bytes: an exact fit unlinks the range and pushes its node onto the spare
   * chain (return_node); a larger range loses size bytes from its front.
   */
  function Allocated(rs: seq<Node>, spare: seq<nat>, i: nat, size: nat): (seq<Node>, seq<nat>)
    requires i < |rs| && rs[i].size >= size
  {
    var n := rs[i];
    if n.size == size then (rs[..i] + rs[i + 1..], [n.id] + spare)
    else (rs[..i] + [Node(n.id, n.offset + size, n.size - size)] + rs[i + 1..], spare)
  }

  /**
   * The list and spare chain after freeing [off, off + size), or None when
   * the block is rejected. With i the first range at or after off: a block
   * that ends where range i starts grows range i downwards, and when range
   * i - 1 also ends where the block starts the two ranges become one in
   * range i - 1's node and range i's node returns to the spare chain. Any
   * other block in front of a range takes the head of the spare chain
   * (get_node), and fails when the chain is empty; when range i - 1 ends
   * where the block starts, range i - 1 grows instead and the node goes
   * straight back. Behind every range, the block grows the last range when
   * it starts where that range ends, and otherwise takes a new node.
   */
  ghost function Freed(rs: seq<Node>, spare: seq<nat>, total: nat, size: nat, off: nat): Option<(seq<Node>, seq<nat>)>
  {
    var i := FirstAtOrAfter(rs, off);
    if !FreeGuard(rs, total, size, off) then None
    else if i < |rs| && off + size == rs[i].offset then
      if i > 0 && End(rs[i - 1]) == off then
        var p := rs[i - 1];
        Some((rs[..i - 1] + [Node(p.id, p.offset, p.size + size + rs[i].size)] + rs[i + 1..], [rs[i].id] + spare))
      else
        Some((rs[..i] + [Node(rs[i].id, off, size + rs[i].size)] + rs[i + 1..], spare))
    else if i > 0 && End(rs[i - 1]) == off && (i == |rs| || spare != []) then
      var j := i - 1;
      Some((rs[..j] + [Node(rs[j].id, rs[j].offset, rs[j].size + size)] + rs[j + 1..], spare))
    else if spare == [] then None
    else Some((rs[..i] + [Node(spare[0], off, size)] + rs[i..], spare[1..]))
  }

  // ------------------------------------------------------------ the list

  class FreeList {
    var totalSize: nat
    var maxEntries: nat
    var list: seq<Node>
    var spare: seq<nat>

    ghost predicate Valid()
      reads this
    {
      Inv(list, spare, totalSize, maxEntries)
    }

    /** Nodes on the list plus nodes on the spare chain are exactly max_entries. */
    lemma NodeAccounting()
      requires Valid()
      ensures |list| + |spare| == maxEntries
    {
      IdsLength(list);
      IotaLength(0, maxEntries);
      assert |multiset(Ids(list)) + multiset(spare)| == |Ids(list)| + |spare|;
    }

    /**
     * freelist_create: one free range [0, total_size) in node 0; nodes 1 to
     * max_entries - 1 form the spare chain in index order. A total size
     * below 16 leaves fewer than two nodes, for which the C code writes
     * outside its node array.
     */
    constructor (total: nat)
      requires IsU32(total) && total >= 2 * POINTER_SIZE
      ensures Valid() && totalSize == total && maxEntries == MaxEntries(total)
      ensures list == [Node(0, 0, total)] && spare == Iota(1, maxEntries)
    {
      totalSize := total;
      var max := total / POINTER_SIZE;
      maxEntries := max;
      list := [Node(0, 0, total)];
      var chain: seq<nat> := [];
      var i := 1;
      while i < max - 1
        invariant 1 <= i <= max - 1
        invariant chain == Iota(1, i)
      {
        IotaSnoc(1, i);
        chain := chain + [i];
        i := i + 1;
      }
      IotaSnoc(1, max - 1);
      chain := chain + [max - 1];
      spare := chain;
      new;
      FreshInv(total);
    }

    /** freelist_free_space: the loop adds up the sizes along the list. */
    method FreeSpace() returns (free: nat)
      requires Valid()
      ensures free == Sum(list)
    {
      free := 0;
      var i := 0;
      while i < |list|
        invariant 0 <= i <= |list|
        invariant free + Sum(list[i..]) == Sum(list)
      {
        assert list[i..][1..] == list[i + 1..];
        free := free + list[i].size;
        i := i + 1;
      }
    }

    /**
     * freelist_allocate_block: first fit. The first range of at least size
     * bytes gives its offset; an exact fit unlinks the range and returns its
     * node to the spare chain, a larger range shrinks from the front. When
     * no range fits nothing changes.
     */
    method AllocateBlock(size: nat) returns (ok: bool, offset: nat)
      requires Valid() && IsU32(size)
      modifies this
      ensures Valid() && totalSize == old(totalSize) && maxEntries == old(maxEntries)
      ensures ok <==> FirstFit(old(list), size) >= 0
      ensures ok ==> offset == old(list)[FirstFit(old(list), size)].offset
      ensures ok ==> (list, spare) == Allocated(old(list), old(spare), FirstFit(old(list), size), size)
      ensures ok ==> offset + size <= totalSize && AllFree(old(list), offset, offset + size)
      ensures ok ==> FreeMinus(list, old(list), offset, offset + size)
      ensures ok ==> Sum(list) + size == old(Sum(list))
      ensures !ok ==> list == old(list) && spare == old(spare)
    {
      var i := 0;
      while i < |list| && list[i].size < size
        invariant 0 <= i <= |list|
        invariant forall k :: 0 <= k < i ==> list[k].size < size
        modifies {}
      {
        i := i + 1;
      }
      FirstFitIs(list, size, i);
      if i == |list| {
        return false, 0;
      }
      offset := AllocateFrom(i, size);
      ok := true;
    }

    /** Allocation from range i, the one first fit chose. */
    method AllocateFrom(i: nat, size: nat) returns (offset: nat)
      requires Valid() && i < |list| && list[i].size >= size
      modifies this
      ensures Valid() && totalSize == old(totalSize) && maxEntries == old(maxEntries)
      ensures offset == old(list)[i].offset
      ensures (list, spare) == Allocated(old(list), old(spare), i, size)
      ensures offset + size <= totalSize && AllFree(old(list), offset, offset + size)
      ensures FreeMinus(list, old(list), offset, offset + size)
      ensures Sum(list) + size == old(Sum(list))
    {
      var n := list[i];
      offset := n.offset;
      if n.size == size {
        AllocExactCase(list, spare, i, totalSize, maxEntries);
        list := list[..i] + list[i + 1..];
        spare := [n.id] + spare;
      } else {
        var m := Node(n.id, n.offset + size, n.size - size);
        AllocShrinkCase(list, spare, i, size, m, totalSize, maxEntries);
        list := list[..i] + [m] + list[i + 1..];
      }
    }

    /**
     * freelist_free_block with get_node's failure handled: a block that
     * passes the guard is added to the free bytes, merging with an adjacent
     * following range, an adjacent preceding range, or both. It fails with
     * no change when the guard rejects it, or when it needs a new node and
     * the spare chain is empty.
     */
    method FreeBlock(size: nat, offset: nat) returns (ok: bool)
      requires Valid() && IsU32(size) && IsU32(offset)
      modifies this
      ensures Valid() && totalSize == old(totalSize) && maxEntries == old(maxEntries)
      ensures ok <==> FreeGuard(old(list), totalSize, size, offset) && (NeedsNode(old(list), size, offset) ==> old(spare) != [])
      ensures ok ==> (list, spare) == Freed(old(list), old(spare), totalSize, size, offset).value
      ensures ok ==> NoneFree(old(list), offset, offset + size)
      ensures ok ==> FreePlus(list, old(list), offset, offset + size)
      ensures ok ==> Sum(list) == old(Sum(list)) + size
      ensures !ok ==> list == old(list) && spare == old(spare)
    {
      ghost var rs, sp := list, spare;
      FreedSome(rs, sp, totalSize, size, offset);
      if offset > totalSize || offset + size > totalSize {
        return false;
      }
      if list == [] {
        FirstAtOrAfterIs(list, offset, 0);
        if spare == [] {
          return false;
        }
        FreedInsert(list, spare, totalSize, size, offset, 0);
        list := list[..0] + [Node(spare[0], offset, size)] + list[0..];
        spare := spare[1..];
        ok := true;
      } else {
        var i := 0;
        while i < |list| && list[i].offset < offset
          invariant 0 <= i <= |list|
          invariant forall k :: 0 <= k < i ==> list[k].offset < offset
          modifies {}
        {
          i := i + 1;
        }
        FirstAtOrAfterIs(list, offset, i);
        if i < |list| {
          ok := FreeBefore(size, offset, i);
        } else {
          ok := FreeTail(size, offset);
        }
      }
      if ok {
        FreedCorrect(rs, sp, totalSize, maxEntries, size, offset);
      }
    }

    /** The block starts before range i, the first at or after it. */
    method FreeBefore(size: nat, offset: nat, i: nat) returns (ok: bool)
      requires Valid() && offset + size <= totalSize && i < |list|
      requires FirstAtOrAfter(list, offset) == i
      modifies this
      ensures totalSize == old(totalSize) && maxEntries == old(maxEntries)
      ensures ok <==> Freed(old(list), old(spare), totalSize, size, offset).Some?
      ensures ok ==> (list, spare) == Freed(old(list), old(spare), totalSize, size, offset).value
      ensures !ok ==> list == old(list) && spare == old(spare)
    {
      var n := list[i];
      if n.offset == offset || offset + size > n.offset {
        return false;
      }
      // Rejecting an overlap with the previous range is missing in the source.
      if i > 0 && End(list[i - 1]) > offset {
        return false;
      }
      if offset + size == n.offset {
        if i > 0 && End(list[i - 1]) == offset {
          var p := list[i - 1];
          var q := Node(p.id, p.offset, p.size + size + n.size);
          FreedMergeBoth(list, spare, totalSize, size, offset, i);
          list := list[..i - 1] + [q] + list[i + 1..];
          spare := [n.id] + spare;
        } else {
          var m := Node(n.id, offset, size + n.size);
          FreedMergeNext(list, spare, totalSize, size, offset, i);
          list := list[..i] + [m] + list[i + 1..];
        }
        return true;
      }
      if spare == [] {
        return false;
      }
      if i > 0 && End(list[i - 1]) == offset {
        var j := i - 1;
        var p := list[j];
        var q := Node(p.id, p.offset, p.size + size);
        FreedMergePrev(list, spare, totalSize, size, offset, j);
        // the node taken by get_node goes straight back to the spare chain
        list := list[..j] + [q] + list[j + 1..];
      } else {
        FreedInsert(list, spare, totalSize, size, offset, i);
        list := list[..i] + [Node(spare[0], offset, size)] + list[i..];
        spare := spare[1..];
      }
      return true;
    }

    /** Every range starts before the block: insert or merge at the tail. */
    method FreeTail(size: nat, offset: nat) returns (ok: bool)
      requires Valid() && offset + size <= totalSize && |list| > 0
      requires FirstAtOrAfter(list, offset) == |list|
      modifies this
      ensures totalSize == old(totalSize) && maxEntries == old(maxEntries)
      ensures ok <==> Freed(old(list), old(spare), totalSize, size, offset).Some?
      ensures ok ==> (list, spare) == Freed(old(list), old(spare), totalSize, size, offset).value
      ensures !ok ==> list == old(list) && spare == old(spare)
    {
      var i := |list|;
      var j := i - 1;
      var p := list[j];
      if End(p) > offset {
        return false;
      }
      if End(p) == offset {
        var q := Node(p.id, p.offset, p.size + size);
        FreedMergePrev(list, spare, totalSize, size, offset, j);
        list := list[..j] + [q] + list[j + 1..];
        return true;
      }
      if spare == [] {
        return false;
      }
      FreedInsert(list, spare, totalSize, size, offset, i);
      list := list[..i] + [Node(spare[0], offset, size)] + list[i..];
      spare := spare[1..];
      return true;
    }

    /**
     * freelist_clear as intended: one range [0, total_size) in node 0 and
     * every other node back on the spare chain in index order.
     */
    method Clear()
      requires Valid()
      modifies this
      ensures Valid() && totalSize == old(totalSize) && maxEntries == old(maxEntries)
      ensures list == [Node(0, 0, totalSize)] && spare == Iota(1, maxEntries)
      ensures Sum(list) == totalSize
    {
      var chain: seq<nat> := [];
      var i := 1;
      while i < maxEntries
        invariant 1 <= i <= maxEntries
        invariant chain == Iota(1, i)
        modifies {}
      {
        IotaSnoc(1, i);
        chain := chain + [i];
        i := i + 1;
      }
      FreshInv(totalSize);
      list := [Node(0, 0, totalSize)];
      spare := chain;
    }
  }

  /** The state create and clear produce satisfies the invariant. */
  lemma FreshInv(total: nat)
    requires IsU32(total) && total >= 2 * POINTER_SIZE
    ensures Inv([Node(0, 0, total)], Iota(1, MaxEntries(total)), total, MaxEntries(total))
    ensures Sum([Node(0, 0, total)]) == total
  {
    InFreeSingle(Node(0, 0, total));
    assert Iota(0, MaxEntries(total)) == [0] + Iota(1, MaxEntries(total));
  }

  lemma {:induction false} IdsLength(rs: seq<Node>)
    ensures |Ids(rs)| == |rs|
  {
    if rs != [] { IdsLength(rs[1..]); }
  }

  lemma {:induction false} IotaLength(lo: nat, hi: nat)
    ensures |Iota(lo, hi)| == if lo <= hi then hi - lo else 0
    decreases hi - lo
  {
    if lo < hi { IotaLength(lo + 1, hi); }
  }

  lemma FirstFitIs(rs: seq<Node>, size: nat, i: nat)
    requires i <= |rs|
    requires forall k :: 0 <= k < i ==> rs[k].size < size
    requires i < |rs| ==> rs[i].size >= size
    ensures FirstFit(rs, size) == if i < |rs| then i else -1
  {
  }

  lemma FirstAtOrAfterIs(rs: seq<Node>, off: nat, i: nat)
    requires i <= |rs|
    requires forall k :: 0 <= k < i ==> rs[k].offset < off
    requires i < |rs| ==> rs[i].offset >= off
    ensures FirstAtOrAfter(rs, off) == i
  {
  }

  // ------------------------------------------- the cases of allocate and free

  lemma SplitAt(rs: seq<Node>, i: nat)
    requires i <= |rs|
    ensures rs == rs[..i] + [] + rs[i..] && rs == rs[..i] + rs[i..]
  {
  }

  lemma SplitAround(rs: seq<Node>, i: nat)
    requires i < |rs|
    ensures rs == rs[..i] + [rs[i]] + rs[i + 1..]
  {
  }

  /** The list with node i removed, position by position. */
  lemma RemovedAt(rs: seq<Node>, i: nat)
    requires i < |rs|
    ensures forall k :: 0 <= k < i ==> (rs[..i] + rs[i + 1..])[k] == rs[k]
    ensures i < |rs| - 1 ==> (rs[..i] + rs[i + 1..])[i] == rs[i + 1]
    ensures (rs[..i] + rs[i + 1..])[..i] == rs[..i] && (rs[..i] + rs[i + 1..])[i..] == rs[i + 1..]
  {
  }

  /** The list with node i replaced by m, position by position. */
  lemma ReplacedAt(rs: seq<Node>, i: nat, m: Node)
    requires i < |rs|
    ensures (rs[..i] + [m] + rs[i + 1..])[i] == m
    ensures forall k :: 0 <= k < i ==> (rs[..i] + [m] + rs[i + 1..])[k] == rs[k]
    ensures (rs[..i] + [m] + rs[i + 1..])[..i] == rs[..i] && (rs[..i] + [m] + rs[i + 1..])[i + 1..] == rs[i + 1..]
  {
  }

  lemma SplitAroundTwo(rs: seq<Node>, i: nat)
    requires i + 1 < |rs|
    ensures rs == rs[..i] + [rs[i], rs[i + 1]] + rs[i + 2..]
  {
  }

  lemma WithinParts(a: seq<Node>, m: seq<Node>, b: seq<Node>, total: nat)
    requires Within(a + m + b, total)
    ensures Within(a, total) && Within(m, total) && Within(b, total)
  {
    var rs := a + m + b;
    assert forall k :: 0 <= k < |a| ==> a[k] == rs[k];
    assert forall k :: 0 <= k < |m| ==> m[k] == rs[|a| + k];
    assert forall k :: 0 <= k < |b| ==> b[k] == rs[|a| + |m| + k];
  }

  /** Replacing range i by m keeps the list gapped and in bounds when m still fits between its neighbours. */
  lemma ShapeSwap(rs: seq<Node>, i: nat, m: Node, total: nat)
    requires GoodList(rs, total) && i < |rs| && End(m) <= total
    requires i > 0 ==> End(rs[i - 1]) < m.offset
    requires i + 1 < |rs| ==> End(m) < rs[i + 1].offset
    ensures GoodList(rs[..i] + [m] + rs[i + 1..], total)
  {
    SplitAround(rs, i);
    GappedSlice(rs, 0, i);
    GappedSlice(rs, i + 1, |rs|);
    assert rs[0..i] == rs[..i] && rs[i + 1..|rs|] == rs[i + 1..];
    WithinParts(rs[..i], [rs[i]], rs[i + 1..], total);
    assert i > 0 ==> rs[..i][i - 1] == rs[i - 1];
    assert i + 1 < |rs| ==> rs[i + 1..][0] == rs[i + 1];
    GappedJoin(rs[..i], [m], rs[i + 1..], total);
  }

  /** Inserting b before range i keeps the list gapped and in bounds when b fits between its neighbours. */
  lemma ShapeInsert(rs: seq<Node>, i: nat, b: Node, total: nat)
    requires GoodList(rs, total) && i <= |rs| && End(b) <= total
    requires i > 0 ==> End(rs[i - 1]) < b.offset
    requires i < |rs| ==> End(b) < rs[i].offset
    ensures GoodList(rs[..i] + [b] + rs[i..], total)
  {
    SplitAt(rs, i);
    GappedSlice(rs, 0, i);
    GappedSlice(rs, i, |rs|);
    assert rs[0..i] == rs[..i] && rs[i..|rs|] == rs[i..];
    WithinParts(rs[..i], [], rs[i..], total);
    assert i > 0 ==> rs[..i][i - 1] == rs[i - 1];
    assert i < |rs| ==> rs[i..][0] == rs[i];
    GappedJoin(rs[..i], [b], rs[i..], total);
  }

  /** Unlinking range i keeps the list gapped and in bounds. */
  lemma ShapeRemove(rs: seq<Node>, i: nat, total: nat)
    requires GoodList(rs, total) && i < |rs|
    ensures GoodList(rs[..i] + rs[i + 1..], total)
  {
    SplitAround(rs, i);
    GappedSlice(rs, 0, i);
    GappedSlice(rs, i + 1, |rs|);
    assert rs[0..i] == rs[..i] && rs[i + 1..|rs|] == rs[i + 1..];
    WithinParts(rs[..i], [rs[i]], rs[i + 1..], total);
    if 0 < i && i + 1 < |rs| {
      GappedPair(rs, i - 1, i + 1);
      assert rs[..i][i - 1] == rs[i - 1] && rs[i + 1..][0] == rs[i + 1];
    }
    GappedJoin(rs[..i], [], rs[i + 1..], total);
    assert rs[..i] + [] + rs[i + 1..] == rs[..i] + rs[i + 1..];
  }

  /** Replacing ranges i - 1 and i by q, which spans both, keeps the list gapped and in bounds. */
  lemma ShapeMergeBoth(rs: seq<Node>, i: nat, q: Node, total: nat)
    requires GoodList(rs, total) && 0 < i < |rs|
    requires q.offset == rs[i - 1].offset && End(q) == End(rs[i])
    ensures GoodList(rs[..i - 1] + [q] + rs[i + 1..], total)
  {
    SplitAroundTwo(rs, i - 1);
    GappedSlice(rs, 0, i - 1);
    GappedSlice(rs, i + 1, |rs|);
    assert rs[0..i - 1] == rs[..i - 1] && rs[i + 1..|rs|] == rs[i + 1..];
    WithinParts(rs[..i - 1], [rs[i - 1], rs[i]], rs[i + 1..], total);
    assert [rs[i - 1], rs[i]][1] == rs[i];
    assert i - 1 > 0 ==> rs[..i - 1][i - 2] == rs[i - 2];
    assert i + 1 < |rs| ==> rs[i + 1..][0] == rs[i + 1];
    GappedJoin(rs[..i - 1], [q], rs[i + 1..], total);
  }

  lemma SpliceFree(a: seq<Node>, m: seq<Node>, m2: seq<Node>, b: seq<Node>, lo: int, hi: int)
    requires FreePlus(m2, m, lo, hi)
    ensures FreePlus(a + m2 + b, a + m + b, lo, hi)
  {
    InFreeConcat(a + m, b);
    InFreeConcat(a, m);
    InFreeConcat(a + m2, b);
    InFreeConcat(a, m2);
  }

  lemma SpliceFreeMinus(a: seq<Node>, m: seq<Node>, m2: seq<Node>, b: seq<Node>, lo: int, hi: int)
    requires FreeMinus(m2, m, lo, hi)
    requires NoneFree(a, lo, hi) && NoneFree(b, lo, hi)
    ensures FreeMinus(a + m2 + b, a + m + b, lo, hi)
  {
    InFreeConcat(a + m, b);
    InFreeConcat(a, m);
    InFreeConcat(a + m2, b);
    InFreeConcat(a, m2);
  }

  /** No byte of range i lies in the ranges before or after it. */
  lemma OthersMiss(rs: seq<Node>, i: nat)
    requires Gapped(rs) && i < |rs|
    ensures NoneFree(rs[..i], rs[i].offset, End(rs[i])) && NoneFree(rs[i + 1..], rs[i].offset, End(rs[i]))
  {
    var before, after := rs[0..i], rs[i + 1..|rs|];
    assert rs[..i] == before && rs[i + 1..] == after;
    forall x | rs[i].offset <= x < End(rs[i]) ensures !InFree(before, x) {
      GappedExclusive(rs, i, x);
      InFreeSlice(rs, 0, i, x);
    }
    forall x | rs[i].offset <= x < End(rs[i]) ensures !InFree(after, x) {
      GappedExclusive(rs, i, x);
      InFreeSlice(rs, i + 1, |rs|, x);
    }
  }

  lemma InFreeSlice(rs: seq<Node>, lo: nat, hi: nat, x: int)
    requires lo <= hi <= |rs|
    ensures InFree(rs[lo..hi], x) ==> exists k :: lo <= k < hi && Covers(rs[k], x)
  {
    if InFree(rs[lo..hi], x) {
      var k :| 0 <= k < hi - lo && Covers(rs[lo..hi][k], x);
      assert rs[lo..hi][k] == rs[lo + k];
    }
  }

  /** The bytes [lo, hi) of range i are free. */
  lemma CoveredFree(rs: seq<Node>, i: nat, lo: int, hi: int)
    requires i < |rs| && rs[i].offset <= lo && hi <= End(rs[i])
    ensures AllFree(rs, lo, hi)
  {
    assert forall x :: lo <= x < hi ==> Covers(rs[i], x);
  }

  /** Replacing range i by m adds the bytes m has beyond it. */
  lemma BytesSwapPlus(rs: seq<Node>, i: nat, m: Node, lo: int, hi: int)
    requires i < |rs| && lo <= hi
    requires (m.offset == rs[i].offset && lo == End(rs[i]) && hi == End(m))
          || (End(m) == End(rs[i]) && lo == m.offset && hi == rs[i].offset)
    ensures FreePlus(rs[..i] + [m] + rs[i + 1..], rs, lo, hi)
  {
    SplitAround(rs, i);
    InFreeSingle(rs[i]);
    InFreeSingle(m);
    SpliceFree(rs[..i], [rs[i]], [m], rs[i + 1..], lo, hi);
  }

  /** Replacing range i by its tail m removes the bytes [rs[i].offset, m.offset). */
  lemma BytesShrink(rs: seq<Node>, i: nat, m: Node)
    requires Gapped(rs) && i < |rs| && End(m) == End(rs[i]) && rs[i].offset <= m.offset
    ensures FreeMinus(rs[..i] + [m] + rs[i + 1..], rs, rs[i].offset, m.offset)
  {
    SplitAround(rs, i);
    InFreeSingle(rs[i]);
    InFreeSingle(m);
    OthersMiss(rs, i);
    SpliceFreeMinus(rs[..i], [rs[i]], [m], rs[i + 1..], rs[i].offset, m.offset);
  }

  /** Unlinking range i removes exactly its bytes. */
  lemma BytesRemove(rs: seq<Node>, i: nat)
    requires Gapped(rs) && i < |rs|
    ensures FreeMinus(rs[..i] + rs[i + 1..], rs, rs[i].offset, End(rs[i]))
  {
    SplitAround(rs, i);
    InFreeSingle(rs[i]);
    InFreeEmpty();
    OthersMiss(rs, i);
    SpliceFreeMinus(rs[..i], [rs[i]], [], rs[i + 1..], rs[i].offset, End(rs[i]));
    assert rs[..i] + [] + rs[i + 1..] == rs[..i] + rs[i + 1..];
  }

  /** Inserting b adds exactly its bytes. */
  lemma BytesInsert(rs: seq<Node>, i: nat, b: Node)
    requires i <= |rs|
    ensures FreePlus(rs[..i] + [b] + rs[i..], rs, b.offset, End(b))
  {
    SplitAt(rs, i);
    InFreeSingle(b);
    InFreeEmpty();
    SpliceFree(rs[..i], [], [b], rs[i..], b.offset, End(b));
  }

  /** Replacing ranges i - 1 and i by q, which spans both, adds the gap between them. */
  lemma BytesMergeBoth(rs: seq<Node>, i: nat, q: Node)
    requires 0 < i < |rs| && End(rs[i - 1]) <= rs[i].offset
    requires q.offset == rs[i - 1].offset && End(q) == End(rs[i])
    ensures FreePlus(rs[..i - 1] + [q] + rs[i + 1..], rs, End(rs[i - 1]), rs[i].offset)
  {
    var p, n := rs[i - 1], rs[i];
    SplitAroundTwo(rs, i - 1);
    InFreeSingle(q);
    InFreeSingle(p);
    InFreeSingle(n);
    assert [p, n] == [p] + [n];
    InFreeConcat([p], [n]);
    SpliceFree(rs[..i - 1], [p, n], [q], rs[i + 1..], End(p), n.offset);
  }

  lemma SpliceCounts(a: seq<Node>, m: seq<Node>, m2: seq<Node>, b: seq<Node>)
    ensures Sum(a + m2 + b) + Sum(m) == Sum(a + m + b) + Sum(m2)
    ensures multiset(Ids(a + m2 + b)) + multiset(Ids(m)) == multiset(Ids(a + m + b)) + multiset(Ids(m2))
  {
    SumConcat(a + m, b);
    SumConcat(a, m);
    SumConcat(a + m2, b);
    SumConcat(a, m2);
    IdsConcat(a + m, b);
    IdsConcat(a, m);
    IdsConcat(a + m2, b);
    IdsConcat(a, m2);
  }

  /** Replacing range i by m in the same node changes the free space by the difference of their sizes. */
  lemma CountsSwap(rs: seq<Node>, i: nat, m: Node)
    requires i < |rs| && m.id == rs[i].id
    ensures Sum(rs[..i] + [m] + rs[i + 1..]) + rs[i].size == Sum(rs) + m.size
    ensures Ids(rs[..i] + [m] + rs[i + 1..]) == Ids(rs)
  {
    var a, n, b := rs[..i], rs[i], rs[i + 1..];
    SplitAround(rs, i);
    InFreeSingle(n);
    InFreeSingle(m);
    SpliceCounts(a, [n], [m], b);
    IdsConcat(a + [m], b);
    IdsConcat(a, [m]);
    IdsConcat(a + [n], b);
    IdsConcat(a, [n]);
  }

  /** Inserting b adds its size and its node. */
  lemma CountsInsert(rs: seq<Node>, i: nat, b: Node)
    requires i <= |rs|
    ensures Sum(rs[..i] + [b] + rs[i..]) == Sum(rs) + b.size
    ensures multiset(Ids(rs[..i] + [b] + rs[i..])) == multiset(Ids(rs)) + multiset{b.id}
  {
    SplitAt(rs, i);
    InFreeSingle(b);
    SpliceCounts(rs[..i], [], [b], rs[i..]);
  }

  /** Unlinking range i removes its size and its node. */
  lemma CountsRemove(rs: seq<Node>, i: nat)
    requires i < |rs|
    ensures Sum(rs[..i] + rs[i + 1..]) + rs[i].size == Sum(rs)
    ensures multiset(Ids(rs[..i] + rs[i + 1..])) + multiset{rs[i].id} == multiset(Ids(rs))
  {
    var a, n, b := rs[..i], rs[i], rs[i + 1..];
    assert a + [] + b == a + b;
    SplitAround(rs, i);
    InFreeSingle(n);
    SpliceCounts(a, [], [n], b);
    assert Sum([]) == 0 && Ids([]) == [];
  }

  /** Merging ranges i - 1 and i into q adds the gap between them to the free space. */
  lemma SumMergeBoth(rs: seq<Node>, i: nat, q: Node)
    requires 0 < i < |rs|
    requires q.size == rs[i - 1].size + (rs[i].offset - End(rs[i - 1])) + rs[i].size
    ensures Sum(rs[..i - 1] + [q] + rs[i + 1..]) == Sum(rs) + (rs[i].offset - End(rs[i - 1]))
  {
    var a, p, n, c := rs[..i - 1], rs[i - 1], rs[i], rs[i + 1..];
    SplitAroundTwo(rs, i - 1);
    InFreeSingle(q);
    InFreeSingle(n);
    assert [p, n][1..] == [n];
    SpliceCounts(a, [p, n], [q], c);
  }

  /** Merging ranges i - 1 and i into q, in node rs[i - 1].id, frees node rs[i].id. */
  lemma IdsMergeBoth(rs: seq<Node>, i: nat, q: Node)
    requires 0 < i < |rs| && q.id == rs[i - 1].id
    ensures multiset(Ids(rs[..i - 1] + [q] + rs[i + 1..])) + multiset{rs[i].id} == multiset(Ids(rs))
  {
    var a, p, n, c := rs[..i - 1], rs[i - 1], rs[i], rs[i + 1..];
    SplitAroundTwo(rs, i - 1);
    IdsConcat(a + [q], c);
    IdsConcat(a, [q]);
    IdsConcat(a + [p, n], c);
    IdsConcat(a, [p, n]);
    InFreeSingle(q);
    InFreeSingle(n);
    assert [p, n][1..] == [n];
    assert Ids([p, n]) == [p.id, n.id];
    MultisetPair(Ids(a), p.id, n.id, Ids(c));
  }

  lemma MultisetPair(x: seq<nat>, u: nat, v: nat, y: seq<nat>)
    ensures multiset(x + [u] + y) + multiset{v} == multiset(x + [u, v] + y)
  {
    assert [u, v] == [u] + [v];
    assert multiset(x + [u] + y) == multiset(x) + multiset([u]) + multiset(y);
    assert multiset(x + [u, v] + y) == multiset(x) + multiset([u, v]) + multiset(y);
  }

  /** A node leaves the list for the head of the spare chain. */
  lemma ToSpare(ids2: seq<nat>, ids: seq<nat>, id: nat, spare: seq<nat>, all: seq<nat>)
    requires multiset(ids2) + multiset{id} == multiset(ids)
    requires multiset(ids) + multiset(spare) == multiset(all)
    ensures multiset(ids2) + multiset([id] + spare) == multiset(all)
  {
    assert multiset([id] + spare) == multiset{id} + multiset(spare);
  }

  /** The node at the head of the spare chain joins the list. */
  lemma FromSpare(ids2: seq<nat>, ids: seq<nat>, spare: seq<nat>, all: seq<nat>)
    requires spare != []
    requires multiset(ids2) == multiset(ids) + multiset{spare[0]}
    requires multiset(ids) + multiset(spare) == multiset(all)
    ensures multiset(ids2) + multiset(spare[1..]) == multiset(all)
  {
    assert spare == [spare[0]] + spare[1..];
    assert multiset(spare) == multiset{spare[0]} + multiset(spare[1..]);
  }

  /** An exact fit: range i is unlinked and its node goes to the head of the spare chain. */
  lemma AllocExactCase(rs: seq<Node>, spare: seq<nat>, i: nat, total: nat, max: nat)
    requires Inv(rs, spare, total, max) && i < |rs|
    ensures Inv(rs[..i] + rs[i + 1..], [rs[i].id] + spare, total, max)
    ensures End(rs[i]) <= total && AllFree(rs, rs[i].offset, End(rs[i]))
    ensures FreeMinus(rs[..i] + rs[i + 1..], rs, rs[i].offset, End(rs[i]))
    ensures Sum(rs[..i] + rs[i + 1..]) + rs[i].size == Sum(rs)
  {
    ShapeRemove(rs, i, total);
    CoveredFree(rs, i, rs[i].offset, End(rs[i]));
    BytesRemove(rs, i);
    CountsRemove(rs, i);
    ToSpare(Ids(rs[..i] + rs[i + 1..]), Ids(rs), rs[i].id, spare, Iota(0, max));
  }

  /** A larger range: range m, which replaces range i in the same node, gives up the first size bytes. */
  lemma AllocShrinkCase(rs: seq<Node>, spare: seq<nat>, i: nat, size: nat, m: Node, total: nat, max: nat)
    requires Inv(rs, spare, total, max) && i < |rs| && size < rs[i].size
    requires m == Node(rs[i].id, rs[i].offset + size, rs[i].size - size)
    ensures Inv(rs[..i] + [m] + rs[i + 1..], spare, total, max)
    ensures rs[i].offset + size <= total && AllFree(rs, rs[i].offset, rs[i].offset + size)
    ensures FreeMinus(rs[..i] + [m] + rs[i + 1..], rs, rs[i].offset, rs[i].offset + size)
    ensures Sum(rs[..i] + [m] + rs[i + 1..]) + size == Sum(rs)
  {
    if i > 0 {
      GappedPair(rs, i - 1, i);
    }
    ShapeSwap(rs, i, m, total);
    CoveredFree(rs, i, rs[i].offset, rs[i].offset + size);
    BytesShrink(rs, i, m);
    CountsSwap(rs, i, m);
  }

  /** A new range b, in the node at the head of the spare chain, goes in before range i (at the end when i == |rs|). */
  lemma FreeInsertCase(rs: seq<Node>, spare: seq<nat>, i: nat, b: Node, total: nat, max: nat)
    requires Inv(rs, spare, total, max) && i <= |rs| && End(b) <= total
    requires spare != [] && b.id == spare[0]
    requires i > 0 ==> End(rs[i - 1]) < b.offset
    requires i < |rs| ==> End(b) < rs[i].offset
    ensures Inv(rs[..i] + [b] + rs[i..], spare[1..], total, max)
    ensures FreePlus(rs[..i] + [b] + rs[i..], rs, b.offset, End(b))
    ensures Sum(rs[..i] + [b] + rs[i..]) == Sum(rs) + b.size
  {
    ShapeInsert(rs, i, b, total);
    BytesInsert(rs, i, b);
    CountsInsert(rs, i, b);
    FromSpare(Ids(rs[..i] + [b] + rs[i..]), Ids(rs), spare, Iota(0, max));
  }

  /** The block [End(p), End(p) + size) follows range p = rs[j] and stops before range j + 1: p grows into q. */
  lemma FreeMergePrevCase(rs: seq<Node>, spare: seq<nat>, j: nat, size: nat, q: Node, total: nat, max: nat)
    requires Inv(rs, spare, total, max) && j < |rs|
    requires End(rs[j]) + size <= total
    requires j + 1 < |rs| ==> End(rs[j]) + size < rs[j + 1].offset
    requires q == Node(rs[j].id, rs[j].offset, rs[j].size + size)
    ensures Inv(rs[..j] + [q] + rs[j + 1..], spare, total, max)
    ensures FreePlus(rs[..j] + [q] + rs[j + 1..], rs, End(rs[j]), End(rs[j]) + size)
    ensures Sum(rs[..j] + [q] + rs[j + 1..]) == Sum(rs) + size
  {
    if j > 0 {
      GappedPair(rs, j - 1, j);
    }
    ShapeSwap(rs, j, q, total);
    BytesSwapPlus(rs, j, q, End(rs[j]), End(rs[j]) + size);
    CountsSwap(rs, j, q);
  }

  /** The block [off, rs[i].offset) ends where range n = rs[i] starts and starts after range i - 1 ends: n grows down into m. */
  lemma FreeMergeNextCase(rs: seq<Node>, spare: seq<nat>, i: nat, off: nat, m: Node, total: nat, max: nat)
    requires Inv(rs, spare, total, max) && i < |rs| && off < rs[i].offset
    requires i > 0 ==> End(rs[i - 1]) < off
    requires m == Node(rs[i].id, off, (rs[i].offset - off) + rs[i].size)
    ensures Inv(rs[..i] + [m] + rs[i + 1..], spare, total, max)
    ensures FreePlus(rs[..i] + [m] + rs[i + 1..], rs, off, rs[i].offset)
    ensures Sum(rs[..i] + [m] + rs[i + 1..]) == Sum(rs) + (rs[i].offset - off)
  {
    if i + 1 < |rs| {
      GappedPair(rs, i, i + 1);
    }
    ShapeSwap(rs, i, m, total);
    BytesSwapPlus(rs, i, m, off, rs[i].offset);
    CountsSwap(rs, i, m);
  }

  /**
   * The block fills the whole gap between p = rs[i - 1] and n = rs[i]: the
   * three become q in p's node, and n's node goes to the head of the spare chain.
   */
  lemma FreeMergeBothCase(rs: seq<Node>, spare: seq<nat>, i: nat, q: Node, total: nat, max: nat)
    requires Inv(rs, spare, total, max) && 0 < i < |rs|
    requires q == Node(rs[i - 1].id, rs[i - 1].offset, rs[i - 1].size + (rs[i].offset - End(rs[i - 1])) + rs[i].size)
    ensures Inv(rs[..i - 1] + [q] + rs[i + 1..], [rs[i].id] + spare, total, max)
    ensures FreePlus(rs[..i - 1] + [q] + rs[i + 1..], rs, End(rs[i - 1]), rs[i].offset)
    ensures Sum(rs[..i - 1] + [q] + rs[i + 1..]) == Sum(rs) + (rs[i].offset - End(rs[i - 1]))
  {
    GappedPair(rs, i - 1, i);
    ShapeMergeBoth(rs, i, q, total);
    BytesMergeBoth(rs, i, q);
    SumMergeBoth(rs, i, q);
    IdsMergeBoth(rs, i, q);
    ToSpare(Ids(rs[..i - 1] + [q] + rs[i + 1..]), Ids(rs), rs[i].id, spare, Iota(0, max));
  }

  /** Freed in each of its cases, with i the first range at or after off. */
  lemma FreedMergeBoth(rs: seq<Node>, spare: seq<nat>, total: nat, size: nat, off: nat, i: nat)
    requires FirstAtOrAfter(rs, off) == i && FreeGuard(rs, total, size, off)
    requires 0 < i < |rs| && off + size == rs[i].offset && End(rs[i - 1]) == off
    ensures Freed(rs, spare, total, size, off)
      == Some((rs[..i - 1] + [Node(rs[i - 1].id, rs[i - 1].offset, rs[i - 1].size + size + rs[i].size)] + rs[i + 1..], [rs[i].id] + spare))
  {
  }

  lemma FreedMergeNext(rs: seq<Node>, spare: seq<nat>, total: nat, size: nat, off: nat, i: nat)
    requires FirstAtOrAfter(rs, off) == i && FreeGuard(rs, total, size, off)
    requires i < |rs| && off + size == rs[i].offset && !(i > 0 && End(rs[i - 1]) == off)
    ensures Freed(rs, spare, total, size, off) == Some((rs[..i] + [Node(rs[i].id, off, size + rs[i].size)] + rs[i + 1..], spare))
  {
  }

  lemma FreedMergePrev(rs: seq<Node>, spare: seq<nat>, total: nat, size: nat, off: nat, j: nat)
    requires FirstAtOrAfter(rs, off) == j + 1 && FreeGuard(rs, total, size, off)
    requires j + 1 < |rs| ==> off + size != rs[j + 1].offset && spare != []
    requires j < |rs| && End(rs[j]) == off
    ensures Freed(rs, spare, total, size, off) == Some((rs[..j] + [Node(rs[j].id, rs[j].offset, rs[j].size + size)] + rs[j + 1..], spare))
  {
  }

  lemma FreedInsert(rs: seq<Node>, spare: seq<nat>, total: nat, size: nat, off: nat, i: nat)
    requires FirstAtOrAfter(rs, off) == i && FreeGuard(rs, total, size, off)
    requires i < |rs| ==> off + size != rs[i].offset
    requires i > 0 ==> End(rs[i - 1]) != off
    requires spare != []
    ensures Freed(rs, spare, total, size, off) == Some((rs[..i] + [Node(spare[0], off, size)] + rs[i..], spare[1..]))
  {
  }

  /**
   * Freeing succeeds exactly when the guard accepts the block and, if the
   * block merges with no neighbour that get_node would be spared for, a
   * spare node is available.
   */
  lemma FreedSome(rs: seq<Node>, spare: seq<nat>, total: nat, size: nat, off: nat)
    ensures Freed(rs, spare, total, size, off).Some?
      <==> FreeGuard(rs, total, size, off) && (NeedsNode(rs, size, off) ==> spare != [])
  {
  }

  /**
   * What a successful free does: the block was wholly allocated, it joins
   * the free bytes, the free space grows by its size, and the invariant is
   * kept.
   */
  lemma FreedCorrect(rs: seq<Node>, spare: seq<nat>, total: nat, max: nat, size: nat, off: nat)
    requires Inv(rs, spare, total, max) && Freed(rs, spare, total, size, off).Some?
    ensures Inv(Freed(rs, spare, total, size, off).value.0, Freed(rs, spare, total, size, off).value.1, total, max)
    ensures NoneFree(rs, off, off + size)
    ensures FreePlus(Freed(rs, spare, total, size, off).value.0, rs, off, off + size)
    ensures Sum(Freed(rs, spare, total, size, off).value.0) == Sum(rs) + size
  {
    var i := FirstAtOrAfter(rs, off);
    FreeGuardSound(rs, total, size, off);
    if i < |rs| && off + size == rs[i].offset {
      if i > 0 && End(rs[i - 1]) == off {
        FreedMergeBoth(rs, spare, total, size, off, i);
        FreeMergeBothCase(rs, spare, i, Node(rs[i - 1].id, rs[i - 1].offset, rs[i - 1].size + size + rs[i].size), total, max);
      } else {
        FreedMergeNext(rs, spare, total, size, off, i);
        FreeMergeNextCase(rs, spare, i, off, Node(rs[i].id, off, size + rs[i].size), total, max);
      }
    } else if i > 0 && End(rs[i - 1]) == off && (i == |rs| || spare != []) {
      var j := i - 1;
      FreedMergePrev(rs, spare, total, size, off, j);
      FreeMergePrevCase(rs, spare, j, size, Node(rs[j].id, rs[j].offset, rs[j].size + size), total, max);
    } else {
      FreedInsert(rs, spare, total, size, off, i);
      FreeInsertCase(rs, spare, i, Node(spare[0], off, size), total, max);
    }
  }

  /**
   * Allocating a block and freeing it again gives back the very same list
   * and spare chain: an exact fit's node is re-taken from the head of the
   * spare chain, and a shrunk range grows back down.
   */
  lemma AllocateFreeRoundTrip(rs: seq<Node>, spare: seq<nat>, total: nat, size: nat)
    requires GoodList(rs, total) && size > 0 && FirstFit(rs, size) >= 0
    ensures Freed(Allocated(rs, spare, FirstFit(rs, size), size).0, Allocated(rs, spare, FirstFit(rs, size), size).1,
                  total, size, rs[FirstFit(rs, size)].offset) == Some((rs, spare))
  {
    RoundTripAt(rs, spare, total, FirstFit(rs, size), size);
  }

  /** The round trip for whichever range i the allocation took. */
  lemma RoundTripAt(rs: seq<Node>, spare: seq<nat>, total: nat, i: nat, size: nat)
    requires GoodList(rs, total) && i < |rs| && 0 < size <= rs[i].size
    ensures Freed(Allocated(rs, spare, i, size).0, Allocated(rs, spare, i, size).1, total, size, rs[i].offset) == Some((rs, spare))
  {
    if rs[i].size == size {
      RoundTripExact(rs, spare, total, i);
    } else {
      RoundTripShrink(rs, spare, total, i, size);
    }
  }

  lemma RoundTripExact(rs: seq<Node>, spare: seq<nat>, total: nat, i: nat)
    requires GoodList(rs, total) && i < |rs| && rs[i].size > 0
    ensures Freed(rs[..i] + rs[i + 1..], [rs[i].id] + spare, total, rs[i].size, rs[i].offset) == Some((rs, spare))
  {
    var n, off, size := rs[i], rs[i].offset, rs[i].size;
    var rs2, sp2 := rs[..i] + rs[i + 1..], [rs[i].id] + spare;
    GappedAll(rs);
    RemovedAt(rs, i);
    FirstAtOrAfterIs(rs2, off, i);
    assert i > 0 ==> End(rs2[i - 1]) < off;
    FreedInsert(rs2, sp2, total, size, off, i);
    SplitAround(rs, i);
  }

  lemma RoundTripShrink(rs: seq<Node>, spare: seq<nat>, total: nat, i: nat, size: nat)
    requires GoodList(rs, total) && i < |rs| && 0 < size < rs[i].size
    ensures Freed(rs[..i] + [Node(rs[i].id, rs[i].offset + size, rs[i].size - size)] + rs[i + 1..], spare,
                  total, size, rs[i].offset) == Some((rs, spare))
  {
    var n, off := rs[i], rs[i].offset;
    var m := Node(n.id, off + size, n.size - size);
    var rs2 := rs[..i] + [m] + rs[i + 1..];
    ReplacedAt(rs, i, m);
    assert forall k :: 0 <= k < i ==> rs2[k].offset < off by {
      GappedAll(rs);
    }
    FirstAtOrAfterIs(rs2, off, i);
    assert i > 0 ==> End(rs2[i - 1]) < off by {
      if i > 0 {
        GappedPair(rs, i - 1, i);
      }
    }
    FreedMergeNext(rs2, spare, total, size, off, i);
    assert Node(rs2[i].id, off, size + rs2[i].size) == n;
    SplitAround(rs, i);
  }

  // --------------------------------------------------- as written

  /**
   * The acceptance test of freelist_free_block as written: the end of the
   * block is computed in u32 and wraps; the previous range is compared
   * against the block only on a tail insert (line 208), not on a middle
   * insert (lines 183-193).
   */
  ghost predicate FreeGuardAsWritten(rs: seq<Node>, total: nat, size: nat, off: nat) {
    var i := FirstAtOrAfter(rs, off);
    off <= total && (off + size) % U32_LIMIT <= total
    && (i < |rs| ==> rs[i].offset != off && off + size <= rs[i].offset)
    && (i == |rs| && i > 0 ==> End(rs[i - 1]) <= off)
  }

  /**
   * With free ranges [0, 100) and [200, 300), freeing 50 bytes at offset 10
   * passes the written test although bytes 10..59 are already free, so the
   * list would then hold the overlapping ranges [0, 100) and [10, 60). The
   * corrected guard rejects it.
   */
  lemma FreeAcceptsOverlap()
    ensures FreeGuardAsWritten([Node(0, 0, 100), Node(1, 200, 100)], 300, 50, 10)
    ensures InFree([Node(0, 0, 100), Node(1, 200, 100)], 10)
    ensures !FreeGuard([Node(0, 0, 100), Node(1, 200, 100)], 300, 50, 10)
  {
    var rs := [Node(0, 0, 100), Node(1, 200, 100)];
    FirstAtOrAfterIs(rs, 10, 1);
    assert Covers(rs[0], 10);
  }

  /**
   * offset + size wraps in u32: a block of 0xFFFF_FFF8 bytes at offset 16
   * ends, as the code computes it, at 8 and passes the bound test of a
   * 100-byte list.
   */
  lemma FreeBoundWraps()
    ensures FreeGuardAsWritten([], 100, 0xFFFF_FFF8, 16)
    ensures !FreeGuard([], 100, 0xFFFF_FFF8, 16)
  {
    FirstAtOrAfterIs([], 16, 0);
  }

  /**
   * freelist_free_block as written dereferences a null node when it needs
   * one and the spare chain is empty (lines 140-141, 171-172, 220-221).
   */
  ghost predicate FreeDereferencesNull(rs: seq<Node>, spare: seq<nat>, total: nat, size: nat, off: nat) {
    FreeGuardAsWritten(rs, total, size, off) && NeedsNode(rs, size, off) && spare == []
  }

  /**
   * A 16-byte list has two nodes. Allocate 2 bytes, free [0, 1), allocate 4
   * bytes: the free ranges are [0, 1) in node 1 and [6, 16) in node 0 and
   * the spare chain is empty; freeing [2, 4) then needs a third node.
   */
  lemma FreeNullExample()
    ensures FreeDereferencesNull([Node(1, 0, 1), Node(0, 6, 10)], [], 16, 2, 2)
  {
    var rs := [Node(1, 0, 1), Node(0, 6, 10)];
    FirstAtOrAfterIs(rs, 2, 1);
  }

  /**
   * freelist_clear as written relinks node 0 as the head with a null next
   * and never rebuilds the spare chain: a spare chain through node 0 is cut
   * right after it, and the other nodes of the old list are lost.
   */
  function ClearSpareAsWritten(spare: seq<nat>): seq<nat> {
    if spare == [] then []
    else if spare[0] == 0 then [0]
    else [spare[0]] + ClearSpareAsWritten(spare[1..])
  }

  /**
   * After allocating all 16 bytes of a two-node list, node 0 is at the head
   * of the spare chain; clear as written leaves it both the head of the
   * list and the next node get_node hands out. Clearing a list whose ranges
   * are in nodes 1 and 0 loses node 1 instead.
   */
  lemma ClearAsWrittenBreaksNodes()
    ensures multiset(Ids([Node(0, 0, 16)])) + multiset(ClearSpareAsWritten([0, 1])) != multiset(Iota(0, 2))
    ensures multiset(Ids([Node(0, 0, 16)])) + multiset(ClearSpareAsWritten([])) != multiset(Iota(0, 2))
  {
    assert Iota(0, 2) == [0, 1];
    assert Ids([Node(0, 0, 16)]) == [0];
    assert ClearSpareAsWritten([0, 1]) == [0];
    assert multiset([0]) + multiset([0]) == multiset{0, 0};
    assert 1 !in multiset{0, 0};
    assert 1 in multiset([0, 1]);
    assert multiset([0]) + multiset([]) == multiset{0};
  }

  /**
   * The index of the last node freelist_create writes as written: it
   * computes max_entries - 1 in u32, and its spare loop runs from node 1 up
   * to that index.
   */
  function CreateLastNodeAsWritten(maxEntries: nat): (last: nat)
    requires IsU32(maxEntries)
    ensures IsU32(last)
    ensures maxEntries > 0 ==> last == maxEntries - 1
  {
    (maxEntries + INVALID_ID) % U32_LIMIT
  }

  /**
   * Node 0's (offset, size) once freelist_create as written returns: it
   * holds the range [0, total_size) unless the final INVALID_ID write to
   * the last node lands on it.
   */
  function CreateHeadAsWritten(total: nat): (nat, nat)
    requires IsU32(total)
  {
    if CreateLastNodeAsWritten(MaxEntries(total)) == 0 then (INVALID_ID, INVALID_ID) else (0, total)
  }

  /**
   * freelist_create as written needs two nodes. Below 8 bytes there is no
   * node, yet the last-node index wraps to INVALID_ID and the spare loop
   * runs up to it, all past the array; from 8 to 15 bytes the only node is
   * both the head and the last node, so its range becomes INVALID_ID and
   * the spare head points past the array. From 16 bytes on the head keeps
   * [0, total_size) and the last spare node is max_entries - 1, as the
   * constructor of FreeList has it.
   */
  lemma CreateSmallTotalBreaks(total: nat)
    requires IsU32(total)
    ensures total < POINTER_SIZE ==> MaxEntries(total) == 0 && CreateLastNodeAsWritten(MaxEntries(total)) == INVALID_ID
    ensures POINTER_SIZE <= total < 2 * POINTER_SIZE ==>
      MaxEntries(total) == 1 && CreateHeadAsWritten(total) == (INVALID_ID, INVALID_ID)
    ensures 2 * POINTER_SIZE <= total ==>
      CreateHeadAsWritten(total) == (0, total) && CreateLastNodeAsWritten(MaxEntries(total)) == MaxEntries(total) - 1
  {
  }
}
