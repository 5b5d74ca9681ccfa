// Fixed-capacity singly-linked list over a pool of nodes
// (engine/src/containers/linkedlist.c).
//
// The list's state is a node pool of max_nodes nodes: the nodes holding the
// list's values, linked from head to tail, and the rest on a chain of free
// nodes. The model keeps the values in order as a sequence and the free
// chain as its length; node addresses and the links between them are not
// modelled. A value is a pointer, modelled as a nat with 0 for null: the
// operations that find nothing to return hand back 0.
module LinkedList {
  import opened Wrappers

  /** sizeof(internal_state): two u64 and four pointers. */
  const STATE_SIZE: nat := 48
  /** sizeof(linkedlist_node): a value pointer and a next pointer. */
  const NODE_SIZE: nat := 16

  /** linkedlist_create's memory requirement: the state, then the node pool. */
  function MemoryRequirement(maxNodes: nat): (r: nat)
    ensures r >= STATE_SIZE && (r - STATE_SIZE) % NODE_SIZE == 0
    ensures (r - STATE_SIZE) / NODE_SIZE == maxNodes
  {
    STATE_SIZE + NODE_SIZE * maxNodes
  }

  /** s with x inserted so that it lands at position i. */
  function Inserted(s: seq<nat>, i: nat, x: nat): seq<nat>
    requires i <= |s|
  {
    s[..i] + [x] + s[i..]
  }

  /** s without its element at position i. */
  function Removed(s: seq<nat>, i: nat): seq<nat>
    requires i < |s|
  {
    s[..i] + s[i + 1..]
  }

  class List {
    /** The size of the node pool. */
    var maxNodes: nat
    /** The values from head to tail. */
    var items: seq<nat>
    /** The number of nodes on the free chain. */
    var free: nat

    /** Every node of the pool is either in the list or on the free chain. */
    ghost predicate Valid()
      reads this
    {
      |items| + free == maxNodes
    }

    /**
     * linkedlist_create with memory supplied: nothing in the list, every
     * node on the free chain. For max_nodes = 0 this is the intended empty
     * pool (see ChainLinksAsWritten).
     */
    constructor (maxNodes: nat)
      ensures Valid() && this.maxNodes == maxNodes
      ensures items == [] && free == maxNodes
    {
      this.maxNodes := maxNodes;
      items := [];
      free := maxNodes;
    }

    /** linkedlist_reset: back to the state create leaves. */
    method Reset()
      modifies this
      ensures Valid() && maxNodes == old(maxNodes)
      ensures items == [] && free == maxNodes
    {
      items := [];
      free := maxNodes;
    }

    /** linkedlist_push_tail: false with nothing changed when no node is free; else x is appended. */
    method PushTail(x: nat) returns (ok: bool)
      requires Valid()
      modifies this
      ensures Valid() && maxNodes == old(maxNodes)
      ensures ok <==> old(free) > 0
      ensures ok ==> items == old(items) + [x]
      ensures !ok ==> items == old(items) && free == old(free)
    {
      if free == 0 {
        return false;
      }
      items, free := items + [x], free - 1;
      ok := true;
    }

    /** linkedlist_push_head: false with nothing changed when no node is free; else x is prepended. */
    method PushHead(x: nat) returns (ok: bool)
      requires Valid()
      modifies this
      ensures Valid() && maxNodes == old(maxNodes)
      ensures ok <==> old(free) > 0
      ensures ok ==> items == [x] + old(items)
      ensures !ok ==> items == old(items) && free == old(free)
    {
      if free == 0 {
        return false;
      }
      items, free := [x] + items, free - 1;
      ok := true;
    }

    /**
     * linkedlist_pop_tail: 0 with nothing changed on an empty list;
     * otherwise the last value, whose node goes back on the free chain.
     */
    method PopTail() returns (v: nat)
      requires Valid()
      modifies this
      ensures Valid() && maxNodes == old(maxNodes)
      ensures old(items) == [] ==> v == 0 && items == [] && free == old(free)
      ensures old(items) != [] ==> old(items) == items + [v]
    {
      if items == [] {
        return 0;
      }
      v := items[|items| - 1];
      items, free := items[..|items| - 1], free + 1;
    }

    /**
     * linkedlist_pop_head: 0 with nothing changed on an empty list;
     * otherwise the first value, whose node goes back on the free chain.
     */
    method PopHead() returns (v: nat)
      requires Valid()
      modifies this
      ensures Valid() && maxNodes == old(maxNodes)
      ensures old(items) == [] ==> v == 0 && items == [] && free == old(free)
      ensures old(items) != [] ==> old(items) == [v] + items
    {
      if items == [] {
        return 0;
      }
      v := items[0];
      items, free := items[1..], free + 1;
    }

    /**
     * linkedlist_insert_at: false with nothing changed for an index past
     * the length or when no node is free; otherwise x lands at index.
     */
    method InsertAt(index: nat, x: nat) returns (ok: bool)
      requires Valid()
      modifies this
      ensures Valid() && maxNodes == old(maxNodes)
      ensures ok <==> index <= |old(items)| && old(free) > 0
      ensures ok ==> items == Inserted(old(items), index, x)
      ensures !ok ==> items == old(items) && free == old(free)
    {
      if index > |items| || free == 0 {
        return false;
      }
      items, free := Inserted(items, index, x), free - 1;
      ok := true;
    }

    /**
     * linkedlist_remove_at (and linkedlist_iterator_remove at the
     * iterator's index): 0 with nothing changed for an index at or past
     * the length; otherwise the value at index, which leaves the list.
     */
    method RemoveAt(index: nat) returns (v: nat)
      requires Valid()
      modifies this
      ensures Valid() && maxNodes == old(maxNodes)
      ensures index >= |old(items)| ==> v == 0 && items == old(items) && free == old(free)
      ensures index < |old(items)| ==> v == old(items)[index] && items == Removed(old(items), index)
    {
      if index >= |items| {
        return 0;
      }
      v := items[index];
      items, free := Removed(items, index), free + 1;
    }

    /** linkedlist_get_at: the value at index, or 0 past the end. */
    method GetAt(index: nat) returns (v: nat)
      requires Valid()
      ensures index < |items| ==> v == items[index]
      ensures index >= |items| ==> v == 0
    {
      if index >= |items| {
        return 0;
      }
      v := items[index];
    }

    /** linkedlist_length. */
    method Length() returns (n: nat)
      requires Valid()
      ensures n == |items| && n + free == maxNodes
    {
      n := |items|;
    }
  }

  // ------------------------------------------------------------ sequence facts

  /** Inserting puts x at i and shifts the later values one place up. */
  lemma InsertedShape(s: seq<nat>, i: nat, x: nat)
    requires i <= |s|
    ensures |Inserted(s, i, x)| == |s| + 1 && Inserted(s, i, x)[i] == x
    ensures forall j :: 0 <= j < i ==> Inserted(s, i, x)[j] == s[j]
    ensures forall j :: i < j <= |s| ==> Inserted(s, i, x)[j] == s[j - 1]
  {
  }

  /** Removing at i and inserting the same value back at i restores the list. */
  lemma {:induction false} InsertRemoved(s: seq<nat>, i: nat)
    requires i < |s|
    ensures Inserted(Removed(s, i), i, s[i]) == s
  {
    assert Removed(s, i)[..i] == s[..i];
    assert Removed(s, i)[i..] == s[i + 1..];
    assert s == s[..i] + [s[i]] + s[i + 1..];
  }

  /** Inserting at i and removing at i gives back the inserted value and the list. */
  lemma RemoveInserted(s: seq<nat>, i: nat, x: nat)
    requires i <= |s|
    ensures Inserted(s, i, x)[i] == x && Removed(Inserted(s, i, x), i) == s
  {
    var t := Inserted(s, i, x);
    assert t[..i] == s[..i];
    assert t[i + 1..] == s[i..];
  }

  /** push_tail is insert_at at the length, push_head is insert_at at 0. */
  lemma PushesAreInserts(s: seq<nat>, x: nat)
    ensures Inserted(s, |s|, x) == s + [x]
    ensures Inserted(s, 0, x) == [x] + s
  {
    assert s[..|s|] == s && s[|s|..] == [];
    assert s[..0] == [] && s[0..] == s;
  }

  /** pop_tail is remove_at at the last index, pop_head is remove_at at 0. */
  lemma PopsAreRemoves(s: seq<nat>)
    requires s != []
    ensures Removed(s, |s| - 1) + [s[|s| - 1]] == s
    ensures [s[0]] + Removed(s, 0) == s
  {
    assert Removed(s, |s| - 1) == s[..|s| - 1];
    assert Removed(s, 0) == s[1..];
  }

  // ------------------------------------------------------------ iterator

  /**
   * linkedlist_iterator: the index it reports and the node it stands on,
   * as that node's position in the list (None for a null node).
   */
  datatype Iterator = Iterator(index: nat, current: Option<nat>)

  /** An iterator on a list s stands on the node at its index, or on null. */
  predicate OnList(s: seq<nat>, it: Iterator)
  {
    it.current.Some? ==> it.current.value == it.index < |s|
  }

  /** The node after position k, or null after the tail. */
  function NextNode(s: seq<nat>, k: nat): (r: Option<nat>)
    ensures r.Some? <==> k + 1 < |s|
    ensures r.Some? ==> r.value == k + 1
  {
    if k + 1 < |s| then Some(k + 1) else None
  }

  /** linkedlist_iterator_begin: at the head, index 0; true when the list is not empty. */
  function Begin(s: seq<nat>): (r: (bool, Iterator))
    ensures r.0 <==> s != []
    ensures OnList(s, r.1) && r.1.index == 0 && (r.1.current.Some? <==> s != [])
  {
    (|s| > 0, Iterator(0, if |s| > 0 then Some(0) else None))
  }

  /**
   * linkedlist_iterator_begin_at: false with the iterator untouched for
   * an index at or past the length; otherwise on the node at index.
   */
  function BeginAt(s: seq<nat>, index: nat, it: Iterator): (r: (bool, Iterator))
    ensures r.0 <==> index < |s|
    ensures !r.0 ==> r.1 == it
    ensures r.0 ==> OnList(s, r.1) && r.1 == Iterator(index, Some(index))
  {
    if index >= |s| then (false, it) else (true, Iterator(index, Some(index)))
  }

  /**
   * linkedlist_iterator_next: false with nothing changed on a null node;
   * otherwise one node on and one index up, true unless that ran off the
   * tail.
   */
  function Next(s: seq<nat>, it: Iterator): (r: (bool, Iterator))
    requires OnList(s, it)
    ensures OnList(s, r.1)
    ensures it.current.None? ==> !r.0 && r.1 == it
    ensures it.current.Some? ==> r.1.index == it.index + 1 && (r.0 <==> it.index + 1 < |s|)
    ensures r.0 <==> r.1.current.Some?
  {
    match it.current
    case None => (false, it)
    case Some(k) =>
      var n := NextNode(s, k);
      (n.Some?, Iterator(it.index + 1, n))
  }

  /** linkedlist_iterator_get: the value of the node the iterator stands on. */
  function Get(s: seq<nat>, it: Iterator): (v: nat)
    requires OnList(s, it) && it.current.Some?
    ensures v == s[it.index]
  {
    s[it.current.value]
  }

  /** The iterator after k calls of next. */
  function Advance(s: seq<nat>, it: Iterator, k: nat): Iterator
    requires OnList(s, it)
    ensures OnList(s, Advance(s, it, k))
    decreases k
  {
    if k == 0 then it else Advance(s, Next(s, it).1, k - 1)
  }

  /**
   * Iteration visits the values in order: after begin and k calls of
   * next, for k below the length, the iterator reads value k; the call of
   * next from the tail returns false, and every later call too, with the
   * iterator no longer moving.
   */
  lemma {:induction false} IterationInOrder(s: seq<nat>, k: nat)
    ensures k < |s| ==> Advance(s, Begin(s).1, k) == Iterator(k, Some(k))
    ensures k < |s| ==> Get(s, Advance(s, Begin(s).1, k)) == s[k]
    ensures k < |s| ==> (Next(s, Advance(s, Begin(s).1, k)).0 <==> k + 1 < |s|)
    ensures k >= |s| ==> Advance(s, Begin(s).1, k).current.None?
    ensures k >= |s| ==> !Next(s, Advance(s, Begin(s).1, k)).0
  {
    if k > 0 {
      IterationInOrder(s, k - 1);
      AdvanceLast(s, Begin(s).1, k - 1);
    }
  }

  /** k + 1 calls of next are k calls followed by one. */
  lemma {:induction false} AdvanceLast(s: seq<nat>, it: Iterator, k: nat)
    requires OnList(s, it)
    ensures Advance(s, it, k + 1) == Next(s, Advance(s, it, k)).1
    decreases k
  {
    if k > 0 {
      AdvanceLast(s, Next(s, it).1, k - 1);
    }
  }

  // ------------------------------------------------------------ as written

  /**
   * The number of links linkedlist_create and linkedlist_reset write
   * before the last node: max_nodes - 1 in u64, which wraps for an empty
   * pool.
   */
  function ChainLinksAsWritten(maxNodes: nat): nat
    requires IsU64(maxNodes)
  {
    (maxNodes - 1) % U64_LIMIT
  }

  /**
   * With max_nodes = 0 the loop of create runs 2^64 - 1 times over a pool
   * of no nodes, writing far past the memory it was given.
   */
  lemma EmptyPoolChainWraps()
    ensures ChainLinksAsWritten(0) == U64_LIMIT - 1
    ensures ChainLinksAsWritten(0) + 1 > MemoryRequirement(0) - STATE_SIZE
  {
  }
}
