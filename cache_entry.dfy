/**
 * The cache entry of the device-side lineage cache and the order in which
 * the eviction queue keeps entries.
 */
module CacheEntry {

  /** An opaque handle to a block of accelerator memory. */
  datatype Ptr = Ptr(address: nat)

  /** The lineage item that produced a cached value, identified by its id. */
  datatype LineageKey = LineageKey(id: nat)

  /**
   * One cached computation result. `score` is the eviction priority the cost
   * model assigns at admission (lower is evicted first); `isNullVal` marks a
   * placeholder for a value still being computed; `isScalar` marks a scalar
   * result, which is never kept on the device.
   */
  datatype Entry = Entry(
    key: LineageKey,
    ptr: Ptr,
    score: int,
    isNullVal: bool,
    isScalar: bool)

  /**
   * The position of an entry in the eviction order: the score, with ties
   * broken by the lineage key. Two entries of equal rank are one element of
   * the eviction queue.
   */
  datatype Rank = Rank(score: int, tiebreak: nat)

  function RankOf(e: Entry): Rank {
    Rank(e.score, e.key.id)
  }

  /** The strict order of the queue's comparator on ranks. */
  predicate Before(a: Rank, b: Rank) {
    a.score < b.score || (a.score == b.score && a.tiebreak < b.tiebreak)
  }

  /** `Before` is a strict total order: exactly one of a < b, a = b, b < a holds. */
  lemma BeforeTrichotomy(a: Rank, b: Rank)
    ensures (Before(a, b) && a != b && !Before(b, a))
         || (a == b && !Before(a, b) && !Before(b, a))
         || (Before(b, a) && a != b && !Before(a, b))
  {
  }

  lemma BeforeTransitive(a: Rank, b: Rank, c: Rank)
    requires Before(a, b) && Before(b, c)
    ensures Before(a, c)
  {
  }
}
