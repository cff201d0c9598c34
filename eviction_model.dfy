/**
 * The bookkeeping state of the device-side lineage cache as a value, with
 * one function per operation. The class in GpuCacheEviction updates the
 * same state in place and is proved to agree with these functions.
 */
module EvictionModel {
  import opened Wrappers
  import opened CacheEntry
  import opened WeightedQueue
  import opened DeviceSizes

  /**
   * `live` counts the consumers of each live pointer; `registry` maps a
   * pointer to its cache entry; `queue` holds the free, evictable entries in
   * eviction order; `currentSize` is the byte counter the callers maintain.
   */
  datatype State = State(
    live: map<Ptr, int>,
    registry: map<Ptr, Entry>,
    queue: seq<Entry>,
    currentSize: int)

  /** Admitting a scalar is a defect of the caller. */
  datatype AdmitError = ScalarNotStored(key: LineageKey)

  /** What every operation keeps: stored counts are at least 1, the queue is a tree in order. */
  predicate Valid(s: State) {
    && (forall p :: p in s.live ==> s.live[p] >= 1)
    && Sorted(s.queue)
  }

  /** The state after `resetEviction`: nothing cached, no bytes counted. */
  function Reset(): State {
    State(map[], map[], [], 0)
  }

  // ---------------- live counts ----------------

  /**
   * `incrementLiveCount` looks the entry up in the registry only when the
   * count becomes 1; removing a missing (null) entry is harmless only from
   * an empty queue.
   */
  predicate CanIncrement(s: State, p: Ptr): (ok: bool)
    ensures p in s.live || p in s.registry ==> ok
    ensures !ok ==> s.queue != []
  {
    p in s.live || p in s.registry || s.queue == []
  }

  function Increment(s: State, p: Ptr): State
    requires Valid(s) && CanIncrement(s, p)
  {
    var count := if p in s.live then s.live[p] + 1 else 1;
    s.(live := s.live[p := count],
       queue := if count == 1 && p in s.registry then Remove(s.queue, s.registry[p]) else s.queue)
  }

  /**
   * `decrementLiveCount` unboxes the stored count, so the pointer must be
   * live; when the count drops to zero the registry entry is added to the
   * queue, so it must exist.
   */
  predicate CanDecrement(s: State, p: Ptr): (ok: bool)
    ensures ok ==> p in s.live
    ensures p in s.live && s.live[p] != 1 ==> ok
  {
    p in s.live && (s.live[p] != 1 || p in s.registry)
  }

  function Decrement(s: State, p: Ptr): State
    requires Valid(s) && CanDecrement(s, p)
  {
    if s.live[p] == 1 then
      s.(live := s.live - {p}, queue := Insert(s.queue, s.registry[p]))
    else
      s.(live := s.live[p := s.live[p] - 1])
  }

  /** `probeLiveCachedPointers`. */
  function Probe(s: State, p: Ptr): bool {
    p in s.live
  }

  // ---------------- admission and the queue ----------------

  /**
   * `addEntry`: placeholders are skipped, scalars are refused, any other
   * entry is registered under its pointer with the score the cost model
   * assigns and becomes live with count 1.
   */
  function AddEntry(s: State, e: Entry, score: int): Result<State, AdmitError> {
    if e.isNullVal then Success(s)
    else if e.isScalar then Failure(ScalarNotStored(e.key))
    else Success(s.(live := s.live[e.ptr := 1], registry := s.registry[e.ptr := e.(score := score)]))
  }

  /** `isGPUCacheEmpty`. */
  function IsGpuCacheEmpty(s: State): bool {
    |s.queue| == 0
  }

  /** `pollFirstEntry`: the first entry of the queue and the state without it, or none. */
  function PollFirst(s: State): (Option<Entry>, State) {
    if s.queue == [] then (None, s)
    else (Some(s.queue[0]), s.(queue := s.queue[1..]))
  }

  /** `peekFirstEntry`; `TreeSet.first` throws on an empty set. */
  function PeekFirst(s: State): Entry
    requires |s.queue| > 0
  {
    s.queue[0]
  }

  /** `removeEntry`. */
  function RemoveEntry(s: State, e: Entry): State
    requires Valid(s)
  {
    s.(queue := Remove(s.queue, e))
  }

  /** `addEntryList`. */
  function AddEntryList(s: State, l: seq<Entry>): State
    requires Valid(s)
  {
    s.(queue := AddAll(s.queue, l))
  }

  // ---------------- space accounting ----------------

  /** `updateSize`. */
  function UpdateSize(s: State, space: int, addSpace: bool): State {
    s.(currentSize := if addSpace then s.currentSize + space else s.currentSize - space)
  }

  /** `isBelowMaxThreshold`. */
  function IsBelowMaxThreshold(s: State, spaceNeeded: int, limit: int): bool {
    spaceNeeded + s.currentSize <= limit
  }

  /** `numPointersCached`. */
  function NumPointersCached(s: State): nat {
    |s.live| + |s.queue|
  }

  /** `totalMemoryCached`: the sizes of the live pointers plus those of the queued entries. */
  ghost function TotalMemoryCached(s: State, sizeOf: Ptr -> nat): nat {
    SumSizes(s.live.Keys, sizeOf) + SumQueue(s.queue, sizeOf)
  }

  /** `getAllCachedPointers`. */
  function AllCachedPointers(s: State): set<Ptr> {
    PointersOf(s.queue) + s.live.Keys
  }

  /**
   * `removeFromDeviceCache`: subtracts the allocation size of the entry's
   * pointer and unregisters the pointer.
   */
  function RemoveFromDeviceCache(s: State, e: Entry, sizeOf: Ptr -> nat): State {
    UpdateSize(s, sizeOf(e.ptr), false).(registry := s.registry - {e.ptr})
  }

  // ---------------- properties of single operations ----------------

  /**
   * Incrementing sets the pointer's count to one more than before (1 when it
   * was absent) and changes no other count. When the count becomes 1 the
   * pointer's entry leaves the queue; otherwise the queue does not change.
   */
  lemma IncrementEffect(s: State, p: Ptr)
    requires Valid(s) && CanIncrement(s, p)
    ensures var t := Increment(s, p);
      && Valid(t)
      && p in t.live && t.live[p] == (if p in s.live then s.live[p] + 1 else 1)
      && (forall x :: x != p ==> (x in t.live <==> x in s.live))
      && (forall x :: x != p && x in s.live ==> t.live[x] == s.live[x])
      && (t.live[p] == 1 <==> p !in s.live)
      && (t.live[p] == 1 && p in s.registry ==>
            !HasRank(t.queue, RankOf(s.registry[p]))
            && forall x :: x in t.queue <==> x in s.queue && RankOf(x) != RankOf(s.registry[p]))
      && (t.live[p] != 1 ==> t.queue == s.queue)
      && (p !in s.registry ==> t.queue == s.queue)
      && t.registry == s.registry && t.currentSize == s.currentSize
  {
  }

  /**
   * Decrementing a count above 1 lowers it by one and leaves the queue; a
   * count of 1 removes the pointer from the live table and adds its entry
   * to the queue. No count drops below 1.
   */
  lemma DecrementEffect(s: State, p: Ptr)
    requires Valid(s) && CanDecrement(s, p)
    ensures var t := Decrement(s, p);
      && Valid(t)
      && (s.live[p] > 1 ==> p in t.live && t.live[p] == s.live[p] - 1 && t.queue == s.queue)
      && (s.live[p] == 1 ==>
            p !in t.live
            && HasRank(t.queue, RankOf(s.registry[p]))
            && (!HasRank(s.queue, RankOf(s.registry[p])) ==>
                  Elements(t.queue) == Elements(s.queue) + {s.registry[p]})
            && (HasRank(s.queue, RankOf(s.registry[p])) ==> t.queue == s.queue))
      && (forall x :: x != p ==> (x in t.live <==> x in s.live))
      && (forall x :: x != p && x in s.live ==> t.live[x] == s.live[x])
      && t.registry == s.registry && t.currentSize == s.currentSize
  {
  }

  /**
   * A release directly after an acquire restores the state, provided the
   * pointer was live or its entry was queued.
   */
  lemma IncrementDecrementRoundTrip(s: State, p: Ptr)
    requires Valid(s)
    requires p in s.live || (p in s.registry && s.registry[p] in s.queue)
    ensures CanIncrement(s, p)
    ensures Valid(Increment(s, p)) && CanDecrement(Increment(s, p), p)
    ensures Decrement(Increment(s, p), p) == s
    ensures Probe(Decrement(Increment(s, p), p), p) == Probe(s, p)
  {
    if p in s.live {
      assert s.live[p := s.live[p] + 1][p := s.live[p]] == s.live;
    } else {
      InsertAfterRemove(s.queue, s.registry[p]);
      assert s.live[p := 1] - {p} == s.live;
    }
  }

  /**
   * An acquire directly after a release restores the state, provided that a
   * release to zero re-inserts the entry (no other queued entry has its rank).
   */
  lemma DecrementIncrementRoundTrip(s: State, p: Ptr)
    requires Valid(s) && CanDecrement(s, p)
    requires s.live[p] == 1 ==> !HasRank(s.queue, RankOf(s.registry[p]))
    ensures Valid(Decrement(s, p)) && CanIncrement(Decrement(s, p), p)
    ensures Increment(Decrement(s, p), p) == s
  {
    if s.live[p] == 1 {
      ReleaseToZeroThenAcquire(s, p);
    } else {
      var t := s.(live := s.live[p := s.live[p] - 1]);
      assert Decrement(s, p) == t;
      assert t.live[p := t.live[p] + 1] == s.live;
    }
  }

  lemma ReleaseToZeroThenAcquire(s: State, p: Ptr)
    requires Valid(s) && p in s.live && s.live[p] == 1 && p in s.registry
    requires !HasRank(s.queue, RankOf(s.registry[p]))
    ensures Valid(Decrement(s, p)) && CanIncrement(Decrement(s, p), p)
    ensures Increment(Decrement(s, p), p) == s
  {
    var e := s.registry[p];
    var q := Insert(s.queue, e);
    var t := s.(live := s.live - {p}, queue := q);
    assert Decrement(s, p) == t;
    assert Valid(t);
    RemoveAfterInsert(s.queue, e);
    var u := Increment(t, p);
    assert u.queue == Remove(q, e) == s.queue;
    assert u.live == (s.live - {p})[p := 1] == s.live;
  }

  /**
   * Admission skips placeholders without a change, fails on scalars before
   * any change, and otherwise makes the pointer live with count 1 under the
   * scored entry, leaving the queue and the byte counter alone.
   */
  lemma AddEntryEffect(s: State, e: Entry, score: int)
    requires Valid(s)
    ensures e.isNullVal ==> AddEntry(s, e, score) == Success(s)
    ensures !e.isNullVal && e.isScalar ==> AddEntry(s, e, score) == Failure(ScalarNotStored(e.key))
    ensures !e.isNullVal && !e.isScalar ==>
      && AddEntry(s, e, score).Success?
      && var t := AddEntry(s, e, score).value;
      && Valid(t)
      && Probe(t, e.ptr) && t.live[e.ptr] == 1
      && e.ptr in t.registry && t.registry[e.ptr] == e.(score := score)
      && (forall x :: x != e.ptr ==> (x in t.live <==> x in s.live) && (x in t.registry <==> x in s.registry))
      && (forall x :: x != e.ptr && x in s.live ==> t.live[x] == s.live[x])
      && (forall x :: x != e.ptr && x in s.registry ==> t.registry[x] == s.registry[x])
      && t.queue == s.queue && t.currentSize == s.currentSize
  {
  }

  /**
   * Polling takes the least entry of the queue and nothing else, the same one
   * peeking shows; it yields nothing exactly when the queue is empty.
   */
  lemma PollFirstEffect(s: State)
    requires Valid(s)
    ensures var (v, t) := PollFirst(s);
      && (v.None? <==> IsGpuCacheEmpty(s))
      && (v.None? ==> t == s)
      && (v.Some? ==>
            && v.value == PeekFirst(s)
            && v.value in s.queue
            && (forall x :: x in s.queue && x != v.value ==> Before(RankOf(v.value), RankOf(x)))
            && Elements(t.queue) == Elements(s.queue) - {v.value}
            && Valid(t))
      && t.live == s.live && t.registry == s.registry && t.currentSize == s.currentSize
  {
    if s.queue != [] {
      FirstIsLeast(s.queue);
      TailFacts(s.queue);
    }
  }

  /** The entries that `k` polls in a row yield, up to the first empty poll. */
  function Polls(s: State, k: nat): seq<Entry>
    decreases k
  {
    if k == 0 then []
    else
      match PollFirst(s)
      case (None, _) => []
      case (Some(v), t) => [v] + Polls(t, k - 1)
  }

  /**
   * Repeated polls drain the queue from its front: they yield its first
   * entries, in ascending order of rank and so of score.
   */
  lemma {:induction false} PollsDrainInOrder(s: State, k: nat)
    requires Valid(s)
    ensures Polls(s, k) == s.queue[..if k < |s.queue| then k else |s.queue|]
    ensures Sorted(Polls(s, k))
    ensures forall i, j :: 0 <= i < j < |Polls(s, k)| ==> Polls(s, k)[i].score <= Polls(s, k)[j].score
    decreases k
  {
    PollsArePrefix(s, k);
    PrefixSorted(s.queue, if k < |s.queue| then k else |s.queue|);
  }

  lemma {:induction false} PollsArePrefix(s: State, k: nat)
    requires Valid(s)
    ensures Polls(s, k) == s.queue[..if k < |s.queue| then k else |s.queue|]
    decreases k
  {
    if k > 0 && s.queue != [] {
      TailFacts(s.queue);
      PollsArePrefix(s.(queue := s.queue[1..]), k - 1);
      var n := if k < |s.queue| then k else |s.queue|;
      assert s.queue[..n] == [s.queue[0]] + s.queue[1..][..n - 1];
    }
  }

  lemma PrefixSorted(q: seq<Entry>, n: nat)
    requires Sorted(q) && n <= |q|
    ensures Sorted(q[..n])
  {
    forall i, j | 0 <= i < j < n ensures Before(RankOf(q[..n][i]), RankOf(q[..n][j])) {
      assert q[..n][i] == q[i] && q[..n][j] == q[j];
    }
  }

  /**
   * Removing an entry from the queue drops what is comparator-equal to it
   * and nothing else: exactly the entry when it is queued, nothing when no
   * queued entry has its rank. The other structures do not change.
   */
  lemma RemoveEntryEffect(s: State, e: Entry)
    requires Valid(s)
    ensures var t := RemoveEntry(s, e);
      && Valid(t)
      && (forall x :: x in t.queue <==> x in s.queue && RankOf(x) != RankOf(e))
      && (e in s.queue ==> Elements(t.queue) == Elements(s.queue) - {e})
      && (!HasRank(s.queue, RankOf(e)) ==> t == s)
      && t.live == s.live && t.registry == s.registry && t.currentSize == s.currentSize
  {
    if e in s.queue {
      forall x | x in s.queue && RankOf(x) == RankOf(e) ensures x == e {
        SortedRankUnique(s.queue, x, e);
      }
    }
  }

  /**
   * Adding a list queues the union of the queue and the list when their
   * entries are told apart by rank, and never anything outside it; it
   * touches nothing but the queue.
   */
  lemma AddEntryListEffect(s: State, l: seq<Entry>)
    requires Valid(s)
    ensures var t := AddEntryList(s, l);
      && Valid(t)
      && Elements(s.queue) <= Elements(t.queue) <= Elements(s.queue) + Elements(l)
      && (RankInjective(Elements(s.queue) + Elements(l)) ==>
            Elements(t.queue) == Elements(s.queue) + Elements(l))
      && t.live == s.live && t.registry == s.registry && t.currentSize == s.currentSize
  {
    if RankInjective(Elements(s.queue) + Elements(l)) {
      AddAllUnion(s.queue, l);
    }
  }

  /** Reserving and then releasing the same number of bytes restores the counter. */
  lemma UpdateSizeRoundTrip(s: State, space: int)
    ensures UpdateSize(UpdateSize(s, space, true), space, false) == s
    ensures UpdateSize(UpdateSize(s, space, false), space, true) == s
  {
  }

  /**
   * There is headroom for `n` bytes exactly when reserving them keeps the
   * counter within the limit; headroom for `n` bytes is headroom for fewer.
   */
  lemma ThresholdMeansReservationFits(s: State, n: int, m: int, limit: int)
    ensures IsBelowMaxThreshold(s, n, limit) <==> UpdateSize(s, n, true).currentSize <= limit
    ensures IsBelowMaxThreshold(s, n, limit) && m <= n ==> IsBelowMaxThreshold(s, m, limit)
  {
  }

  /**
   * Removing an entry from the device cache releases its pointer's bytes and
   * unregisters that pointer, leaving the live table and the queue.
   */
  lemma RemoveFromDeviceCacheEffect(s: State, e: Entry, sizeOf: Ptr -> nat)
    ensures var t := RemoveFromDeviceCache(s, e, sizeOf);
      && t.currentSize == s.currentSize - sizeOf(e.ptr)
      && e.ptr !in t.registry
      && (forall x :: x != e.ptr ==> (x in t.registry <==> x in s.registry))
      && (forall x :: x != e.ptr && x in s.registry ==> t.registry[x] == s.registry[x])
      && t.live == s.live && t.queue == s.queue
  {
  }

  /**
   * The pointer count of the audit is never below the number of distinct
   * cached pointers, in any state.
   */
  lemma CachedPointersBound(s: State)
    ensures |AllCachedPointers(s)| <= NumPointersCached(s)
  {
    PointersCount(s.queue);
    assert |s.live.Keys| == |s.live|;
    assert |PointersOf(s.queue) + s.live.Keys| <= |PointersOf(s.queue)| + |s.live.Keys|;
  }
}
