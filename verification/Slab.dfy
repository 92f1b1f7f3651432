/** The node slab (`slab.rs`, `node.rs`): nodes in a growing vector, addressed by index,
    with freed indices kept on a stack for reuse. */
module Slab {
  import opened Words
  import opened Prefixes
  import opened TrieStates

  /** `ts` is the whole payload: `ThinData` and `ThickData` carry nothing else. */
  datatype Node = Node(child0: nat, child1: nat, prefix: Prefix, announced: bool, ts: nat)

  const DEFAULT_NODE := Node(0, 0, DEFAULT_PREFIX, false, 0)

  function ChildOf(n: Node, bit: bool): nat {
    if bit then n.child1 else n.child0
  }

  function SetChild(n: Node, bit: bool, child: nat): Node {
    if bit then n.(child1 := child) else n.(child0 := child)
  }

  /** `NodeData::merge_ancestor`. */
  function MergeAncestor(n: Node, ts: nat): (m: Node)
    ensures m.ts >= ts && m.ts >= n.ts && (m.ts == ts || m.ts == n.ts) && m == n.(ts := m.ts)
  {
    if ts > n.ts then n.(ts := ts) else n
  }

  class VecSlab {
    var entries: seq<Node>
    var freeList: seq<nat>
    const maxCapacity: Word

    ghost predicate Valid()
      reads this
    {
      && 1 <= |entries| <= maxCapacity + 1
      && forall i | 0 <= i < |freeList| :: 1 <= freeList[i] < |entries|
    }

    function Allocator(): Pool
      reads this
    {
      Pool(freeList, |entries|)
    }

    /** How many allocations will still succeed. */
    function Room(): int
      reads this
    {
      |freeList| + (maxCapacity + 1 - |entries|)
    }

    constructor (capacity: Word)
      ensures Valid() && maxCapacity == capacity
      ensures entries == [DEFAULT_NODE] && freeList == []
    {
      entries := [DEFAULT_NODE];
      freeList := [];
      maxCapacity := capacity;
    }

    /** `with_entries_mapped_from`: freed slots are mapped as well, so indices keep their meaning. */
    constructor MappedFrom(other: VecSlab, mapper: Node -> Node)
      requires other.Valid()
      ensures Valid() && maxCapacity == other.maxCapacity && freeList == other.freeList
      ensures |entries| == |other.entries|
      ensures forall i | 0 <= i < |entries| :: entries[i] == mapper(other.entries[i])
    {
      var from := other.entries;
      entries := seq(|from|, i requires 0 <= i < |from| => mapper(from[i]));
      freeList := other.freeList;
      maxCapacity := other.maxCapacity;
    }

    /** `Clone`. */
    constructor CopyOf(other: VecSlab)
      requires other.Valid()
      ensures Valid() && maxCapacity == other.maxCapacity
      ensures entries == other.entries && freeList == other.freeList
    {
      entries := other.entries;
      freeList := other.freeList;
      maxCapacity := other.maxCapacity;
    }

    /** Live slots: neither the reserved one nor those on the free list. */
    function Len(): int
      reads this
    {
      |entries| - 1 - |freeList|
    }

    /** Pops the most recently freed slot, or appends one; 0 when the slab is full. */
    method Alloc() returns (idx: nat)
      requires Valid()
      modifies this
      ensures Valid()
      ensures idx == 0 <==> old(Room()) <= 0
      ensures idx == 0 ==> entries == old(entries) && freeList == old(freeList)
      ensures old(freeList) != [] ==> old(freeList) == freeList + [idx] && entries == old(entries)
      ensures old(freeList) == [] && idx != 0 ==>
                idx == old(|entries|) && freeList == [] && entries == old(entries) + [DEFAULT_NODE]
      ensures idx != 0 ==> idx == NextSlot(old(Allocator())) && Allocator() == Allocated(old(Allocator()))
      ensures idx < |entries| && Room() == old(Room()) - (if idx == 0 then 0 else 1)
      ensures old(entries) <= entries
    {
      if |freeList| > 0 {
        idx := freeList[|freeList| - 1];
        freeList := freeList[..|freeList| - 1];
        return;
      }
      var nextPosition := |entries|;
      if nextPosition > maxCapacity {
        return 0;
      }
      entries := entries + [DEFAULT_NODE];
      idx := nextPosition;
    }

    /** Freeing a slot that is free already is a programming error. */
    method Free(idx: nat)
      requires Valid() && 1 <= idx < |entries| && idx !in freeList
      modifies this`freeList
      ensures Valid() && freeList == old(freeList) + [idx]
    {
      freeList := freeList + [idx];
    }

    method Put(idx: nat, n: Node)
      requires Valid() && idx < |entries|
      modifies this`entries
      ensures Valid() && entries == old(entries)[idx := n]
    {
      entries := entries[idx := n];
    }
  }

  /** A freed slot is the next one handed out. */
  method FreeThenAlloc(slab: VecSlab, idx: nat) returns (again: nat)
    requires slab.Valid() && 1 <= idx < |slab.entries| && idx !in slab.freeList
    modifies slab
    ensures slab.Valid() && again == idx
    ensures slab.freeList == old(slab.freeList) && slab.entries == old(slab.entries)
  {
    slab.Free(idx);
    again := slab.Alloc();
  }
}
