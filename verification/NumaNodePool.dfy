/**
 The per-node pool and the allocator as objects, for one thread running alone: the
 compare-and-swap loop with any number of spurious failures, and the byte counter. Threads
 that race for the same pool are the subject of `NumaAllocator`.
 */
module NumaNodePool {
  import opened Machine
  import opened BitOps
  import opened NumaAllocator

  const MAX_NUMA_NODES: nat := 8

  class NodePool {
    const w: nat
    const poolSize: nat
    var active: bool
    var offset: nat

    ghost predicate Valid()
      reads this
    {
      offset <= poolSize < Pow2(w)
    }

    constructor (w: nat, poolSize: nat)
      requires poolSize < Pow2(w)
      ensures Valid() && active && offset == 0 && this.w == w && this.poolSize == poolSize
    {
      this.w, this.poolSize := w, poolSize;
      active, offset := true, 0;
    }

    /**
     The result is the offset of the granted range, None for a null pointer. A request that
     fits a machine word is granted exactly when its range fits behind the offset.
     */
    method Allocate(size: nat, k: nat, spuriousFailures: nat) returns (result: Option<nat>)
      requires Valid() && k < w
      modifies this`offset
      ensures Valid()
      ensures result.Some? <==> active && NewOffset(w, old(offset), size, k) <= poolSize
      ensures offset == if result.Some? then NewOffset(w, old(offset), size, k) else old(offset)
      ensures result.Some? ==> result.value == AlignedOffset(w, old(offset), k)
      ensures Reasonable(w, poolSize, size, k) ==>
        && (result.Some? <==> active && TrueEnd(old(offset), size, k) <= poolSize)
        && (result.Some? ==> result.value == RoundUp(old(offset), Pow2(k)) && offset == result.value + size)
    {
      if Reasonable(w, poolSize, size, k) {
        ReasonableValues(w, poolSize, offset, size, k);
      }
      if !active {
        return None;
      }
      var current := offset;
      var failures := spuriousFailures;
      while true
        invariant current == offset == old(offset)
        decreases failures
      {
        var aligned := AlignedOffset(w, current, k);
        var newOffset := NewOffset(w, current, size, k);
        if newOffset > poolSize {
          return None;
        }
        if failures == 0 {
          offset := newOffset;
          return Some(aligned);
        }
        failures := failures - 1;
        current := offset;
      }
    }

    method Reset()
      requires Valid()
      modifies this`offset
      ensures Valid() && offset == 0
    {
      offset := 0;
    }
  }

  class Allocator {
    const pools: seq<NodePool>
    var totalAllocated: nat

    constructor (pools: seq<NodePool>)
      requires |pools| == MAX_NUMA_NODES
      ensures this.pools == pools && totalAllocated == 0
    {
      this.pools := pools;
      totalAllocated := 0;
    }

    method AllocateOnNode(nodeId: nat, size: nat, k: nat, spuriousFailures: nat) returns (result: Option<nat>)
      requires |pools| == MAX_NUMA_NODES
      requires nodeId < MAX_NUMA_NODES ==> pools[nodeId].Valid() && k < pools[nodeId].w
      modifies this`totalAllocated, if nodeId < |pools| then {pools[nodeId]} else {}
      ensures nodeId >= MAX_NUMA_NODES ==> result.None?
      ensures nodeId < MAX_NUMA_NODES ==>
        var pool := pools[nodeId];
        && pool.Valid() && pool.active == old(pool.active)
        && (result.Some? <==> pool.active && NewOffset(pool.w, old(pool.offset), size, k) <= pool.poolSize)
        && (result.Some? ==> result.value == AlignedOffset(pool.w, old(pool.offset), k))
        && pool.offset == if result.Some? then NewOffset(pool.w, old(pool.offset), size, k) else old(pool.offset)
      ensures totalAllocated == old(totalAllocated) + if result.Some? then size else 0
    {
      if nodeId >= MAX_NUMA_NODES {
        return None;
      }
      result := pools[nodeId].Allocate(size, k, spuriousFailures);
      if result.Some? {
        totalAllocated := totalAllocated + size;
      }
    }
  }
}
