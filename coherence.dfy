/**
 * The invariant the cache relies on its callers to keep: every registered
 * pointer is either live or queued as free, never both and never neither,
 * and only device values are registered. The operations that maintain the
 * lifecycle (acquire, release, admission of a new pointer, eviction of the
 * least entry) preserve it; under it the audit queries agree with the
 * registry.
 */
module Coherence {
  import opened CacheEntry
  import opened WeightedQueue
  import opened DeviceSizes
  import opened EvictionModel

  /** The entries of the registered pointers that are not live. */
  function FreeEntries(s: State): set<Entry> {
    set p | p in s.registry && p !in s.live :: s.registry[p]
  }

  /** The registered pointers that are not live. */
  function FreePointers(s: State): set<Ptr> {
    s.registry.Keys - s.live.Keys
  }

  predicate Coherent(s: State): (c: bool)
    ensures c ==> Valid(s) && s.live.Keys <= s.registry.Keys
  {
    && Valid(s)
    && s.live.Keys <= s.registry.Keys
    && (forall p :: p in s.registry ==>
          s.registry[p].ptr == p && !s.registry[p].isNullVal && !s.registry[p].isScalar)
    && (forall p, p' :: p in s.registry && p' in s.registry && RankOf(s.registry[p]) == RankOf(s.registry[p']) ==> p == p')
    && Elements(s.queue) == FreeEntries(s)
  }

  /** Each queued entry is the registry entry of its own pointer, which is not live. */
  lemma QueuedAreRegisteredFree(s: State)
    requires Coherent(s)
    ensures forall x :: x in s.queue ==> x.ptr in s.registry && x.ptr !in s.live && s.registry[x.ptr] == x
  {
    forall x | x in s.queue
      ensures x.ptr in s.registry && x.ptr !in s.live && s.registry[x.ptr] == x
    {
      assert x in FreeEntries(s);
      var p :| p in s.registry && p !in s.live && s.registry[p] == x;
    }
  }

  /** Mutual exclusion: a registered pointer is live exactly when its entry is not queued. */
  lemma LiveOrQueued(s: State, p: Ptr)
    requires Coherent(s) && p in s.registry
    ensures Probe(s, p) <==> s.registry[p] !in s.queue
  {
    QueuedAreRegisteredFree(s);
    if !Probe(s, p) {
      assert s.registry[p] in FreeEntries(s);
    }
  }

  lemma ResetCoherent()
    ensures Coherent(Reset())
    ensures NumPointersCached(Reset()) == 0 && AllCachedPointers(Reset()) == {}
  {
    assert FreeEntries(Reset()) == {};
    assert PointersOf([]) == {};
  }

  /** Acquiring a registered pointer keeps the invariant. */
  lemma IncrementCoherent(s: State, p: Ptr)
    requires Coherent(s) && p in s.registry
    ensures CanIncrement(s, p) && Coherent(Increment(s, p))
  {
    IncrementEffect(s, p);
    var t := Increment(s, p);
    if p in s.live {
      assert t.live.Keys == s.live.Keys;
      assert FreeEntries(t) == FreeEntries(s);
    } else {
      var e := s.registry[p];
      QueuedAreRegisteredFree(s);
      forall x | x in t.queue ensures x in FreeEntries(t) {
        assert x.ptr != p;
      }
      forall x | x in FreeEntries(t) ensures x in t.queue {
        var y :| y in t.registry && y !in t.live && t.registry[y] == x;
        assert x in FreeEntries(s);
      }
    }
  }

  /** Releasing a live pointer keeps the invariant. */
  lemma DecrementCoherent(s: State, p: Ptr)
    requires Coherent(s) && p in s.live
    ensures CanDecrement(s, p) && Coherent(Decrement(s, p))
  {
    DecrementEffect(s, p);
    var t := Decrement(s, p);
    if s.live[p] == 1 {
      var e := s.registry[p];
      QueuedAreRegisteredFree(s);
      assert !HasRank(s.queue, RankOf(e)) by {
        forall i | 0 <= i < |s.queue| ensures RankOf(s.queue[i]) != RankOf(e) {
          assert s.queue[i] in s.queue;
        }
      }
      assert Elements(t.queue) == Elements(s.queue) + {e};
      forall x | x in FreeEntries(t) ensures x in Elements(s.queue) + {e} {
        var y :| y in t.registry && y !in t.live && t.registry[y] == x;
        if y != p {
          assert x in FreeEntries(s);
        }
      }
      assert FreeEntries(s) <= FreeEntries(t);
      assert e in FreeEntries(t);
    } else {
      assert t.live.Keys == s.live.Keys;
      assert FreeEntries(t) == FreeEntries(s);
    }
  }

  /**
   * Admitting an entry for a pointer not yet registered, scored apart from
   * every registered entry, keeps the invariant.
   */
  lemma AddEntryCoherent(s: State, e: Entry, score: int)
    requires Coherent(s)
    requires e.ptr !in s.registry
    requires forall p :: p in s.registry ==> RankOf(s.registry[p]) != RankOf(e.(score := score))
    ensures AddEntry(s, e, score).Success? ==> Coherent(AddEntry(s, e, score).value)
  {
    AddEntryEffect(s, e, score);
    if !e.isNullVal && !e.isScalar {
      var t := AddEntry(s, e, score).value;
      forall x | x in FreeEntries(t) ensures x in FreeEntries(s) {
        var y :| y in t.registry && y !in t.live && t.registry[y] == x;
      }
      forall x | x in FreeEntries(s) ensures x in FreeEntries(t) {
        var y :| y in s.registry && y !in s.live && s.registry[y] == x;
        assert y != e.ptr;
      }
    }
  }

  /**
   * One step of eviction, taking the least queued entry and removing it from
   * the device cache, keeps the invariant; the victim's pointer is no
   * longer cached and no live pointer is touched.
   */
  lemma EvictLeastCoherent(s: State, sizeOf: Ptr -> nat)
    requires Coherent(s) && !IsGpuCacheEmpty(s)
    ensures var (v, t) := PollFirst(s);
      && v.Some?
      && var u := RemoveFromDeviceCache(t, v.value, sizeOf);
      && Coherent(u)
      && u.live == s.live
      && u.registry.Keys == s.registry.Keys - {v.value.ptr}
      && v.value.ptr !in AllCachedPointers(u)
      && u.currentSize == s.currentSize - sizeOf(v.value.ptr)
  {
    PollFirstEffect(s);
    QueuedAreRegisteredFree(s);
    var (v, t) := PollFirst(s);
    var victim := v.value;
    var u := RemoveFromDeviceCache(t, victim, sizeOf);
    assert Elements(u.queue) == Elements(s.queue) - {victim};
    forall x | x in FreeEntries(u) ensures x in Elements(u.queue) {
      var y :| y in u.registry && y !in u.live && u.registry[y] == x;
      assert x in FreeEntries(s);
      assert y != victim.ptr;
    }
    forall x | x in Elements(u.queue) ensures x in FreeEntries(u) {
      assert x in s.queue && x != victim;
      assert x.ptr in u.registry;
    }
    CoherentPointers(u);
  }

  /** Under the invariant, queued entries own distinct pointers. */
  lemma QueueDistinctPointers(s: State)
    requires Coherent(s)
    ensures DistinctPointers(s.queue)
  {
    QueuedAreRegisteredFree(s);
    forall i, j | 0 <= i < j < |s.queue| ensures s.queue[i].ptr != s.queue[j].ptr {
      assert s.queue[i] in s.queue && s.queue[j] in s.queue;
      assert Before(RankOf(s.queue[i]), RankOf(s.queue[j]));
    }
  }

  /** Under the invariant, the queued pointers are the free registered pointers. */
  lemma QueuedPointersAreFree(s: State)
    requires Coherent(s)
    ensures PointersOf(s.queue) == FreePointers(s)
  {
    QueuedAreRegisteredFree(s);
    forall p | p in FreePointers(s) ensures p in PointersOf(s.queue) {
      assert s.registry[p] in FreeEntries(s);
    }
  }

  /** `getAllCachedPointers` returns exactly the registered pointers. */
  lemma CoherentPointers(s: State)
    requires Coherent(s)
    ensures AllCachedPointers(s) == s.registry.Keys
  {
    QueuedPointersAreFree(s);
  }

  /** `numPointersCached` counts each registered pointer once. */
  lemma CoherentCount(s: State)
    requires Coherent(s)
    ensures NumPointersCached(s) == |s.registry| == |AllCachedPointers(s)|
  {
    QueueDistinctPointers(s);
    PointersCount(s.queue);
    QueuedPointersAreFree(s);
    CoherentPointers(s);
    assert s.registry.Keys == s.live.Keys + FreePointers(s);
    assert |s.registry.Keys| == |s.live.Keys| + |FreePointers(s)|;
  }

  /** `totalMemoryCached` is the total size of the registered pointers. */
  lemma CoherentTotal(s: State, sizeOf: Ptr -> nat)
    requires Coherent(s)
    ensures TotalMemoryCached(s, sizeOf) == SumSizes(s.registry.Keys, sizeOf)
  {
    QueueDistinctPointers(s);
    SumQueueIsSumSizes(s.queue, sizeOf);
    QueuedPointersAreFree(s);
    SumSizesUnion(s.live.Keys, FreePointers(s), sizeOf);
    assert s.registry.Keys == s.live.Keys + FreePointers(s);
  }
}
