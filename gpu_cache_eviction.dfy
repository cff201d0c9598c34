/**
 * The device side of the lineage cache as one object whose methods update
 * its fields in place, as the static members of the Java class do. Every
 * method is proved to produce the state the matching EvictionModel
 * function computes.
 */
module GpuCacheEviction {
  import opened Wrappers
  import opened CacheEntry
  import opened WeightedQueue
  import opened DeviceSizes
  import opened EvictionModel
  import opened Coherence

  class LineageGpuCacheEviction {
    /** `_currentCacheSize`: bytes the callers have reserved. */
    var currentSize: int
    /** `GPU_CACHE_LIMIT`: the byte budget, fixed at startup. */
    const limit: int
    /** The memory manager's `getSizeAllocatedGPUPointer`. */
    const sizeOf: Ptr -> nat
    /** `weightedQueue`: the free entries, in eviction order. */
    var queue: seq<Entry>
    /** `livePointers`: consumer counts of the live pointers. */
    var live: map<Ptr, int>
    /** `GPUCacheEntries`: the entry of each cached pointer. */
    var registry: map<Ptr, Entry>

    function Model(): State
      reads this
    {
      State(live, registry, queue, currentSize)
    }

    predicate Valid()
      reads this
    {
      EvictionModel.Valid(Model())
    }

    /** The initial state of the static members, with the limit already configured. */
    constructor (limit: int, sizeOf: Ptr -> nat)
      ensures Valid() && Model() == Reset()
      ensures this.limit == limit && this.sizeOf == sizeOf
    {
      this.limit := limit;
      this.sizeOf := sizeOf;
      currentSize := 0;
      queue := [];
      live := map[];
      registry := map[];
    }

    /** `resetEviction`. */
    method ResetEviction()
      modifies this
      ensures Valid() && Model() == Reset()
    {
      currentSize := 0;
      queue := [];
      live := map[];
      registry := map[];
    }

    /** `incrementLiveCount`. */
    method IncrementLiveCount(ptr: Ptr)
      requires Valid() && CanIncrement(Model(), ptr)
      modifies this
      ensures Valid() && Model() == Increment(old(Model()), ptr)
    {
      IncrementEffect(Model(), ptr);
      var count := if ptr in live then live[ptr] + 1 else 1;
      live := live[ptr := count];
      if count == 1 && ptr in registry {
        queue := Remove(queue, registry[ptr]);
      }
    }

    /** `decrementLiveCount`. */
    method DecrementLiveCount(ptr: Ptr)
      requires Valid() && CanDecrement(Model(), ptr)
      modifies this
      ensures Valid() && Model() == Decrement(old(Model()), ptr)
    {
      DecrementEffect(Model(), ptr);
      if live[ptr] == 1 {
        live := live - {ptr};
        queue := Insert(queue, registry[ptr]);
      } else {
        live := live[ptr := live[ptr] - 1];
      }
    }

    /**
     * `probeLiveCachedPointers`: whether the pointer is in use; for a
     * registered pointer of a coherent cache, whether it is safe from eviction.
     */
    function ProbeLiveCachedPointers(ptr: Ptr): (isLive: bool)
      reads this
      ensures isLive == Probe(Model(), ptr)
      ensures Coherent(Model()) && ptr in registry ==> (isLive <==> registry[ptr] !in queue)
    {
      assert Coherent(Model()) && ptr in registry ==> (ptr in live <==> registry[ptr] !in queue) by {
        if Coherent(Model()) && ptr in registry {
          LiveOrQueued(Model(), ptr);
        }
      }
      ptr in live
    }

    /** `addEntry`, with the score the cost model computes for the entry. */
    method AddEntry(entry: Entry, score: int) returns (outcome: Outcome<AdmitError>)
      requires Valid()
      modifies this
      ensures Valid()
      ensures outcome.Pass? <==> EvictionModel.AddEntry(old(Model()), entry, score).Success?
      ensures outcome.Pass? ==> Model() == EvictionModel.AddEntry(old(Model()), entry, score).value
      ensures outcome.Fail? ==>
        && Model() == old(Model())
        && EvictionModel.AddEntry(old(Model()), entry, score) == Failure(outcome.error)
    {
      AddEntryEffect(Model(), entry, score);
      if entry.isNullVal {
        return Pass;
      }
      if entry.isScalar {
        return Fail(ScalarNotStored(entry.key));
      }
      live := live[entry.ptr := 1];
      registry := registry[entry.ptr := entry.(score := score)];
      outcome := Pass;
    }

    /** `isGPUCacheEmpty`: no entry is free to evict. */
    function IsGpuCacheEmpty(): (empty: bool)
      reads this
      ensures empty == EvictionModel.IsGpuCacheEmpty(Model())
      ensures empty <==> Elements(queue) == {}
    {
      assert queue != [] ==> queue[0] in Elements(queue);
      |queue| == 0
    }

    /** `pollFirstEntry`. */
    method PollFirstEntry() returns (first: Option<Entry>)
      requires Valid()
      modifies this
      ensures Valid() && (first, Model()) == PollFirst(old(Model()))
    {
      PollFirstEffect(Model());
      if queue == [] {
        return None;
      }
      first := Some(queue[0]);
      queue := queue[1..];
    }

    /** `peekFirstEntry`: the queued entry that ranks before every other. */
    function PeekFirstEntry(): (first: Entry)
      reads this
      requires Valid() && |queue| > 0
      ensures first == PeekFirst(Model())
      ensures first in queue
      ensures forall x :: x in queue && x != first ==> Before(RankOf(first), RankOf(x))
    {
      FirstIsLeast(queue);
      queue[0]
    }

    /** `removeEntry`. */
    method RemoveEntry(e: Entry)
      requires Valid()
      modifies this
      ensures Valid() && Model() == EvictionModel.RemoveEntry(old(Model()), e)
    {
      RemoveEntryEffect(Model(), e);
      queue := Remove(queue, e);
    }

    /** `addEntryList`. */
    method AddEntryList(entryList: seq<Entry>)
      requires Valid()
      modifies this
      ensures Valid() && Model() == EvictionModel.AddEntryList(old(Model()), entryList)
    {
      queue := AddAll(queue, entryList);
    }

    /** `updateSize`. */
    method UpdateSize(space: int, addSpace: bool)
      requires Valid()
      modifies this
      ensures Valid() && Model() == EvictionModel.UpdateSize(old(Model()), space, addSpace)
    {
      if addSpace {
        currentSize := currentSize + space;
      } else {
        currentSize := currentSize - space;
      }
    }

    /** `isBelowMaxThreshold`: whether reserving the bytes keeps the counter within the limit. */
    function IsBelowMaxThreshold(spaceNeeded: int): (below: bool)
      reads this
      ensures below == EvictionModel.IsBelowMaxThreshold(Model(), spaceNeeded, limit)
      ensures below <==> EvictionModel.UpdateSize(Model(), spaceNeeded, true).currentSize <= limit
    {
      spaceNeeded + currentSize <= limit
    }

    /**
     * `numPointersCached`: never below the number of distinct cached
     * pointers, and equal to the number of registered pointers in a coherent cache.
     */
    function NumPointersCached(): (n: nat)
      reads this
      ensures n == EvictionModel.NumPointersCached(Model())
      ensures |GetAllCachedPointers()| <= n
      ensures Valid() ==> n == |live| + |Elements(queue)|
      ensures Coherent(Model()) ==> n == |registry|
    {
      CachedPointersBound(Model());
      assert Valid() ==> |queue| == |Elements(queue)| by {
        if Valid() {
          ElementsCount(queue);
        }
      }
      assert Coherent(Model()) ==> |live| + |queue| == |registry| by {
        if Coherent(Model()) {
          CoherentCount(Model());
        }
      }
      |live| + |queue|
    }

    /**
     * `getAllCachedPointers`: the live pointers and those of the queued
     * entries; the registered pointers in a coherent cache.
     */
    function GetAllCachedPointers(): (ps: set<Ptr>)
      reads this
      ensures ps == AllCachedPointers(Model())
      ensures forall p :: p in ps <==> p in live || exists i :: 0 <= i < |queue| && queue[i].ptr == p
      ensures Coherent(Model()) ==> ps == registry.Keys
    {
      assert Coherent(Model()) ==> PointersOf(queue) + live.Keys == registry.Keys by {
        if Coherent(Model()) {
          CoherentPointers(Model());
        }
      }
      PointersOf(queue) + live.Keys
    }

    /**
     * `totalMemoryCached`: adds up the allocation sizes of the live pointers
     * and of the queued entries; in a coherent cache, the size of every
     * registered pointer.
     */
    method TotalMemoryCached() returns (total: nat)
      ensures total == EvictionModel.TotalMemoryCached(Model(), sizeOf)
      ensures Coherent(Model()) ==> total == SumSizes(registry.Keys, sizeOf)
    {
      var totLive: nat := 0;
      var rest := live.Keys;
      while rest != {}
        invariant totLive + SumSizes(rest, sizeOf) == SumSizes(live.Keys, sizeOf)
        decreases rest
      {
        var p :| p in rest;
        SumSizesRemove(rest, p, sizeOf);
        totLive := totLive + sizeOf(p);
        rest := rest - {p};
      }
      var totFree: nat := 0;
      for i := 0 to |queue|
        invariant totFree == SumQueue(queue[..i], sizeOf)
      {
        assert queue[..i + 1][..i] == queue[..i];
        totFree := totFree + sizeOf(queue[i].ptr);
      }
      assert queue[..|queue|] == queue;
      total := totLive + totFree;
      assert Coherent(Model()) ==> total == SumSizes(registry.Keys, sizeOf) by {
        if Coherent(Model()) {
          CoherentTotal(Model(), sizeOf);
        }
      }
    }

    /**
     * `removeFromDeviceCache`: releases the bytes of the entry's pointer and
     * unregisters it. The upstream invalidation of the entry's lineage key is
     * not part of this model.
     */
    method RemoveFromDeviceCache(entry: Entry)
      requires Valid()
      modifies this
      ensures Valid() && Model() == EvictionModel.RemoveFromDeviceCache(old(Model()), entry, sizeOf)
    {
      var size := sizeOf(entry.ptr);
      UpdateSize(size, false);
      registry := registry - {entry.ptr};
    }
  }
}
