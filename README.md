# Device-side eviction bookkeeping of the SystemDS lineage cache

This project models `LineageGPUCacheEviction`. That class holds the bookkeeping for lineage-cache results that live in accelerator (GPU) memory. It has four parts:

- **Live table** (`livePointers`): a count of the consumers using each device pointer.
- **Registry** (`GPUCacheEntries`): maps each pointer to its cache entry.
- **Weighted queue** (`weightedQueue`): a `TreeSet` of the free entries that may be evicted, lowest-ranked first.
- **Byte counter** (`_currentCacheSize`): checked against the fixed budget `GPU_CACHE_LIMIT`.

The model has two layers:

- **Value layer.** `EvictionModel` holds the whole state as a datatype, with one function per Java method. Lemmas there state what each operation does.
- **Object layer.** The class `GpuCacheEviction.LineageGpuCacheEviction` has the same fields and updates them in place, as the Java static methods do. Each of its methods is proved to produce exactly the state the matching `EvictionModel` function computes.

`Coherence` states the invariant that the callers' protocol keeps:

- A registered pointer is either live or queued, never both and never neither.
- Each registered entry belongs to its own pointer.
- Registered entries have distinct ranks.
- Only device values (no placeholders, no scalars) are registered.

`Coherence` proves that acquire, release, admission of a new pointer and eviction of the least entry preserve this invariant. Under it, the audit queries agree with the registry.

Modules, one per file:

- `CacheEntry` (`cache_entry.dfy`): pointers, lineage keys, entries and the comparator's order.
- `WeightedQueue` (`weighted_queue.dfy`): the `TreeSet`, as a sequence whose ranks strictly increase. Comparator-equal entries are one element: `Insert` keeps the element already present, and `Remove` drops whichever element is comparator-equal to its argument.
- `DeviceSizes` (`device_sizes.dfy`): byte totals over pointer sets and over queues.
- `EvictionModel` (`eviction_model.dfy`): the state, the operations and their properties.
- `Coherence` (`coherence.dfy`): the lifecycle invariant and the audit theorems.
- `GpuCacheEviction` (`gpu_cache_eviction.dfy`): the imperative class.
- `Scenarios` (`scenarios.dfy`): two concrete traces, one for eviction order and one for the byte budget.
- `Wrappers` (`wrappers.dfy`): `Option`, `Outcome` and `Result`.

Points where the model follows the Java code closely:

- **`peekFirstEntry`.** It calls `TreeSet.first`, which throws on an empty set; it does not report "empty". `PeekFirst` therefore requires a non-empty queue.
- **`removeEntry`.** It only removes the entry from the queue. Apart from `resetEviction`, which clears the whole registry, only `removeFromDeviceCache` unregisters a pointer.
- **Mutual exclusion.** The class does not keep this invariant by itself:
  - `addEntry` neither checks for nor removes a queued entry of the same pointer.
  - `removeEntry` and `addEntryList` change the queue without the registry.
  - A poll leaves the victim registered until `removeFromDeviceCache`.

  The invariant is therefore stated and proved for the caller protocol, not as an object invariant.

Preconditions that stand for crashes in the source:

- **`decrementLiveCount` on a pointer with no count.** The remapping lambda unboxes a null count (line 76). See `CanDecrement`.
- **A count reaching zero for an unregistered pointer.** This adds a null entry to the queue, which fails in the comparator (line 77).
- **`incrementLiveCount` of an unregistered, non-live pointer while the queue is non-empty.** This removes a null entry from a non-empty queue, which fails in the comparator (line 71). Removing null from an empty queue does nothing, so `CanIncrement` allows that case.

## Model

| member | source | states |
|---|---|---|
| CacheEntry.BeforeTrichotomy | src/main/java/org/apache/sysds/runtime/lineage/LineageGPUCacheEviction.java:43 | the queue's order on ranks is total and strict: exactly one of before, equal, after holds |
| CacheEntry.BeforeTransitive | src/main/java/org/apache/sysds/runtime/lineage/LineageGPUCacheEviction.java:43 | the queue's order on ranks is transitive |
| WeightedQueue.Insert | src/main/java/org/apache/sysds/runtime/lineage/LineageGPUCacheEviction.java:77 | `TreeSet.add` keeps the tree ordered; it adds exactly the entry when no comparator-equal element is present, and otherwise changes nothing |
| WeightedQueue.Remove | src/main/java/org/apache/sysds/runtime/lineage/LineageGPUCacheEviction.java:142-144 | `TreeSet.remove` keeps the tree ordered; afterwards no element is comparator-equal to the argument and every other element remains; it is a no-op when none was present |
| WeightedQueue.AddAll | src/main/java/org/apache/sysds/runtime/lineage/LineageGPUCacheEviction.java:146-148 | `AddAll` is defined as `Insert` applied in list order, as `addAll` over a list does, so it equals repeated inserts by definition; its contract states that the tree stays ordered and loses nothing, that it adds nothing outside the list, and that the resulting ranks are the old ranks plus the list's ranks |
| WeightedQueue.FirstIsLeast | src/main/java/org/apache/sysds/runtime/lineage/LineageGPUCacheEviction.java:134-140 | the first element ranks before every other element, and the rest holds every element except it |
| WeightedQueue.ElementsCount | src/main/java/org/apache/sysds/runtime/lineage/LineageGPUCacheEviction.java:168 | the queue's size is its number of distinct entries |
| WeightedQueue.SortedRankUnique | src/main/java/org/apache/sysds/runtime/lineage/LineageGPUCacheEviction.java:43 | the tree holds at most one entry per rank |
| WeightedQueue.InsertAfterRemove | src/main/java/org/apache/sysds/runtime/lineage/LineageGPUCacheEviction.java:68-78 | removing a queued entry and adding it back restores the queue exactly |
| WeightedQueue.RemoveAfterInsert | src/main/java/org/apache/sysds/runtime/lineage/LineageGPUCacheEviction.java:68-78 | adding an entry of a new rank and removing it restores the queue exactly |
| WeightedQueue.AddAllUnion | src/main/java/org/apache/sysds/runtime/lineage/LineageGPUCacheEviction.java:146-148 | when ranks tell the entries apart, `addAll` yields exactly the queue's elements plus the list's elements |
| WeightedQueue.AddAllAppend | src/main/java/org/apache/sysds/runtime/lineage/LineageGPUCacheEviction.java:146-148 | adding two lists one after the other equals adding their concatenation |
| WeightedQueue.PointersCount | src/main/java/org/apache/sysds/runtime/lineage/LineageGPUCacheEviction.java:179-186 | the queued pointers are at most as many as the queued entries, and exactly as many when the pointers are distinct |
| DeviceSizes.SumSizesRemove | src/main/java/org/apache/sysds/runtime/lineage/LineageGPUCacheEviction.java:172-173 | the byte total of a pointer set does not depend on the order in which it is summed |
| DeviceSizes.SumSizesUnion | src/main/java/org/apache/sysds/runtime/lineage/LineageGPUCacheEviction.java:171-177 | the byte total of a disjoint union is the sum of the two totals |
| DeviceSizes.SumQueueIsSumSizes | src/main/java/org/apache/sysds/runtime/lineage/LineageGPUCacheEviction.java:174-175 | the stream sum over the queue equals the total of its pointers when they are distinct |
| EvictionModel.CanIncrement | src/main/java/org/apache/sysds/runtime/lineage/LineageGPUCacheEviction.java:68-72 | the cases in which `incrementLiveCount` does not crash: a live or registered pointer can always be acquired, and the null-entry removal fails only on a non-empty queue (line 71) |
| EvictionModel.CanDecrement | src/main/java/org/apache/sysds/runtime/lineage/LineageGPUCacheEviction.java:74-78 | the cases in which `decrementLiveCount` does not crash: the pointer must hold a count to unbox (line 76), and any count above 1 can be released (line 77) |
| EvictionModel.IncrementEffect | src/main/java/org/apache/sysds/runtime/lineage/LineageGPUCacheEviction.java:68-72 | the count becomes old+1, or 1 when absent; no other count changes; when the count becomes 1 the registered pointer's entry leaves the queue; otherwise, and for an unregistered pointer, the queue is unchanged; counts stay at least 1 |
| EvictionModel.DecrementEffect | src/main/java/org/apache/sysds/runtime/lineage/LineageGPUCacheEviction.java:74-78 | a count c > 1 becomes c-1 and the queue is unchanged; a count of 1 removes the pointer from the live table and queues its entry; no count drops below 1 and no other count changes |
| EvictionModel.IncrementDecrementRoundTrip | src/main/java/org/apache/sysds/runtime/lineage/LineageGPUCacheEviction.java:68-82 | for a pointer that is live, or registered with its entry queued, an increment then a decrement restores the whole state, so the live probe is unchanged |
| EvictionModel.DecrementIncrementRoundTrip | src/main/java/org/apache/sysds/runtime/lineage/LineageGPUCacheEviction.java:68-78 | a release then an acquire restores the whole state, including a release to zero that re-queued the entry |
| EvictionModel.AddEntryEffect | src/main/java/org/apache/sysds/runtime/lineage/LineageGPUCacheEviction.java:116-128 | a placeholder changes nothing; a scalar fails with its key and changes nothing; any other entry becomes live with count 1 and is registered under its pointer with its new score; the queue and the byte counter are untouched |
| EvictionModel.PollFirstEffect | src/main/java/org/apache/sysds/runtime/lineage/LineageGPUCacheEviction.java:130-140 | polling yields nothing exactly when the queue is empty (`isGPUCacheEmpty`); otherwise it removes and returns exactly the least entry, the same one peeking returns; nothing else changes |
| EvictionModel.PollsDrainInOrder | src/main/java/org/apache/sysds/runtime/lineage/LineageGPUCacheEviction.java:134-136 | k repeated polls yield the queue's first k entries in ascending rank, so in non-decreasing score |
| EvictionModel.RemoveEntryEffect | src/main/java/org/apache/sysds/runtime/lineage/LineageGPUCacheEviction.java:142-144 | removing drops exactly the entry when it is queued; it is a no-op when no comparator-equal entry is queued; live, registry and counter are untouched |
| EvictionModel.AddEntryListEffect | src/main/java/org/apache/sysds/runtime/lineage/LineageGPUCacheEviction.java:146-148 | the queue grows to at most the old queue plus the list, and to exactly that when ranks tell the entries apart; live, registry and counter are untouched |
| EvictionModel.UpdateSizeRoundTrip | src/main/java/org/apache/sysds/runtime/lineage/LineageGPUCacheEviction.java:152-157 | adding then subtracting the same space, or the reverse, restores the counter |
| EvictionModel.ThresholdMeansReservationFits | src/main/java/org/apache/sysds/runtime/lineage/LineageGPUCacheEviction.java:159-161 | there is room for n bytes iff reserving them keeps the counter within the limit; room for n bytes means room for fewer |
| EvictionModel.RemoveFromDeviceCacheEffect | src/main/java/org/apache/sysds/runtime/lineage/LineageGPUCacheEviction.java:212-218 | the counter drops by the allocation size of the entry's pointer; only that pointer is unregistered; live and queue are unchanged |
| EvictionModel.CachedPointersBound | src/main/java/org/apache/sysds/runtime/lineage/LineageGPUCacheEviction.java:167-186 | in any state, `numPointersCached` is at least the number of distinct pointers `getAllCachedPointers` returns |
| Coherence.Coherent | src/main/java/org/apache/sysds/runtime/lineage/LineageGPUCacheEviction.java:42-45 | the agreement between the three structures: the model invariant holds, and every live pointer is registered (the full predicate also asks that each registered entry belongs to its own pointer and is neither a placeholder nor a scalar, that registry entries have distinct ranks, and that the queue holds exactly the registered, non-live entries) |
| Coherence.QueuedAreRegisteredFree | src/main/java/org/apache/sysds/runtime/lineage/LineageGPUCacheEviction.java:42-45 | in a coherent cache, every queued entry is the registry entry of its own pointer, and that pointer is not live |
| Coherence.LiveOrQueued | src/main/java/org/apache/sysds/runtime/lineage/LineageGPUCacheEviction.java:80-82 | mutual exclusion: a registered pointer is live exactly when its entry is not queued |
| Coherence.ResetCoherent | src/main/java/org/apache/sysds/runtime/lineage/LineageGPUCacheEviction.java:47-54 | the reset state is coherent and caches no pointer |
| Coherence.IncrementCoherent | src/main/java/org/apache/sysds/runtime/lineage/LineageGPUCacheEviction.java:68-72 | acquiring a registered pointer keeps the cache coherent |
| Coherence.DecrementCoherent | src/main/java/org/apache/sysds/runtime/lineage/LineageGPUCacheEviction.java:74-78 | releasing a live pointer is always allowed in a coherent cache, and it keeps the cache coherent |
| Coherence.AddEntryCoherent | src/main/java/org/apache/sysds/runtime/lineage/LineageGPUCacheEviction.java:116-128 | admitting an entry for an unregistered pointer, with a rank no other registered entry has, keeps the cache coherent |
| Coherence.EvictLeastCoherent | src/main/java/org/apache/sysds/runtime/lineage/LineageGPUCacheEviction.java:212-218 | polling the least entry and removing it from the device cache keeps the cache coherent; it leaves live pointers untouched; it uncaches exactly the victim's pointer and releases its bytes |
| Coherence.QueueDistinctPointers | src/main/java/org/apache/sysds/runtime/lineage/LineageGPUCacheEviction.java:174-175 | in a coherent cache, queued entries own distinct pointers |
| Coherence.QueuedPointersAreFree | src/main/java/org/apache/sysds/runtime/lineage/LineageGPUCacheEviction.java:181-183 | in a coherent cache, the pointers of queued entries are exactly the registered pointers that are not live |
| Coherence.CoherentPointers | src/main/java/org/apache/sysds/runtime/lineage/LineageGPUCacheEviction.java:179-186 | in a coherent cache, `getAllCachedPointers` is exactly the set of registered pointers |
| Coherence.CoherentCount | src/main/java/org/apache/sysds/runtime/lineage/LineageGPUCacheEviction.java:167-169 | in a coherent cache, `numPointersCached` equals both the registry size and the number of distinct cached pointers |
| Coherence.CoherentTotal | src/main/java/org/apache/sysds/runtime/lineage/LineageGPUCacheEviction.java:171-177 | in a coherent cache, `totalMemoryCached` is the total allocation size of the registered pointers |
| Scenarios.LowerScoreEvictedFirst | src/main/java/org/apache/sysds/runtime/lineage/LineageGPUCacheEviction.java:134-136 | X (score 3) and Y (score 1) are admitted and released; polling yields Y, then X |
| Scenarios.BudgetScenario | src/main/java/org/apache/sysds/runtime/lineage/LineageGPUCacheEviction.java:152-161 | limit 1,000,000: 600,000 bytes fit and are reserved; then 500,000 more do not fit; after the first entry is released and evicted, they fit, and the cache stays coherent |
| GpuCacheEviction.LineageGpuCacheEviction.constructor | src/main/java/org/apache/sysds/runtime/lineage/LineageGPUCacheEviction.java:36-45 | the initial static state: empty structures, counter 0, the configured limit and allocator |
| GpuCacheEviction.LineageGpuCacheEviction.ResetEviction | src/main/java/org/apache/sysds/runtime/lineage/LineageGPUCacheEviction.java:47-54 | empties the live table, the registry and the queue, and sets the counter to 0 |
| GpuCacheEviction.LineageGpuCacheEviction.IncrementLiveCount | src/main/java/org/apache/sysds/runtime/lineage/LineageGPUCacheEviction.java:68-72 | updates the fields in place to the state `EvictionModel.Increment` gives, keeping the object invariant |
| GpuCacheEviction.LineageGpuCacheEviction.DecrementLiveCount | src/main/java/org/apache/sysds/runtime/lineage/LineageGPUCacheEviction.java:74-78 | updates the fields in place to the state `EvictionModel.Decrement` gives; a count must be present, and a pointer whose count is 1 must be registered, since its entry is then added to the queue |
| GpuCacheEviction.LineageGpuCacheEviction.ProbeLiveCachedPointers | src/main/java/org/apache/sysds/runtime/lineage/LineageGPUCacheEviction.java:80-82 | whether the pointer is live; for a registered pointer of a coherent cache, exactly when its entry is not evictable |
| GpuCacheEviction.LineageGpuCacheEviction.AddEntry | src/main/java/org/apache/sysds/runtime/lineage/LineageGPUCacheEviction.java:116-128 | a placeholder changes nothing; a scalar that is not a placeholder fails and leaves the state unchanged; otherwise the state becomes the one `EvictionModel.AddEntry` gives |
| GpuCacheEviction.LineageGpuCacheEviction.IsGpuCacheEmpty | src/main/java/org/apache/sysds/runtime/lineage/LineageGPUCacheEviction.java:130-132 | true exactly when no entry is queued |
| GpuCacheEviction.LineageGpuCacheEviction.PollFirstEntry | src/main/java/org/apache/sysds/runtime/lineage/LineageGPUCacheEviction.java:134-136 | returns the queue's first entry (none when empty) and removes it, as `EvictionModel.PollFirst` does |
| GpuCacheEviction.LineageGpuCacheEviction.PeekFirstEntry | src/main/java/org/apache/sysds/runtime/lineage/LineageGPUCacheEviction.java:138-140 | on a non-empty queue, the queued entry that ranks before every other |
| GpuCacheEviction.LineageGpuCacheEviction.RemoveEntry | src/main/java/org/apache/sysds/runtime/lineage/LineageGPUCacheEviction.java:142-144 | takes the entry out of the queue in place, as `EvictionModel.RemoveEntry` does |
| GpuCacheEviction.LineageGpuCacheEviction.AddEntryList | src/main/java/org/apache/sysds/runtime/lineage/LineageGPUCacheEviction.java:146-148 | adds the list to the queue in place, as `EvictionModel.AddEntryList` does |
| GpuCacheEviction.LineageGpuCacheEviction.UpdateSize | src/main/java/org/apache/sysds/runtime/lineage/LineageGPUCacheEviction.java:152-157 | adds or subtracts the space on the counter and changes nothing else |
| GpuCacheEviction.LineageGpuCacheEviction.IsBelowMaxThreshold | src/main/java/org/apache/sysds/runtime/lineage/LineageGPUCacheEviction.java:159-161 | true exactly when reserving the bytes would keep the counter within the limit |
| GpuCacheEviction.LineageGpuCacheEviction.NumPointersCached | src/main/java/org/apache/sysds/runtime/lineage/LineageGPUCacheEviction.java:167-169 | the number of live pointers plus the number of distinct queued entries (the `TreeSet` size); at least the number of distinct cached pointers; equal to the registry size in a coherent cache |
| GpuCacheEviction.LineageGpuCacheEviction.GetAllCachedPointers | src/main/java/org/apache/sysds/runtime/lineage/LineageGPUCacheEviction.java:179-186 | a pointer is returned iff it is live or some queued entry owns it; in a coherent cache, exactly the registered pointers |
| GpuCacheEviction.LineageGpuCacheEviction.TotalMemoryCached | src/main/java/org/apache/sysds/runtime/lineage/LineageGPUCacheEviction.java:171-177 | the loops add up the sizes of the live pointers and of the queued entries; in a coherent cache this is the total size of the registered pointers |
| GpuCacheEviction.LineageGpuCacheEviction.RemoveFromDeviceCache | src/main/java/org/apache/sysds/runtime/lineage/LineageGPUCacheEviction.java:212-218 | releases the bytes of the entry's pointer and unregisters it, as `EvictionModel.RemoveFromDeviceCache` does |

## Left out

- `adjustD2HTransferSpeed` (lines 101-112): floating-point smoothing of the transfer bandwidth. Its only caller is the commented-out `copyToHostCache` (lines 188-210), which is left out too.
- `setGPULineageCacheLimit` (lines 89-92): a floating-point fraction of the device memory budget. The limit is a constructor parameter instead: the `limit` field stands for `GPU_CACHE_LIMIT`, which `getGPUCacheLimit` returns.
- `setStartTimestamp` / `getStartTimestamp`: these read the wall clock.
- `setGPUContext` / `getGPUContext` / `getPointerSize`: these wrap the external GPU memory manager. The allocator's size query is the function `sizeOf`, given at construction.
- `entry.computeScore` (line 124): the cost model is not part of this model. Its result is the `score` argument of `AddEntry`, and the score is an integer standing for Java's `double`.
- The entry comparator `LineageCacheComparator` is not part of this model. The order is taken as ascending score, with ties broken by the lineage key's id. Entries of equal (score, id) count as one element of the queue, as in a `TreeSet`.
- `LineageCache.removeEntry(entry._key)` (line 215): the upstream invalidation of the evicted key. It is a call into code outside this model.
- `gpuEvictionThread` (lines 40, 49): the background eviction thread. Concurrency and the synchronization questions it raises are not modelled; all operations are sequential.
- Entries are values, not shared objects. This leaves out the Java case where `computeScore` changes the score of an entry object that is already in the `TreeSet`.
- Integer widths: the counter and the sizes are unbounded integers, and the live counts are unbounded. Java's 64-bit `long` overflow and 32-bit `Integer` overflow are not modelled.
- `PeekFirst`: on an empty queue, the Java code throws `NoSuchElementException`. The model requires a non-empty queue instead of modelling that exception.
