/**
 * Byte totals over cached device pointers, with sizes reported by the
 * accelerator's memory manager (`sizeOf`).
 */
module DeviceSizes {
  import opened CacheEntry
  import opened WeightedQueue

  /** The total size of a set of pointers. */
  ghost function SumSizes(ps: set<Ptr>, sizeOf: Ptr -> nat): nat
    decreases ps
  {
    if ps == {} then 0
    else
      var p :| p in ps;
      sizeOf(p) + SumSizes(ps - {p}, sizeOf)
  }

  /** The total does not depend on which pointer is taken out first. */
  lemma {:induction false} SumSizesRemove(ps: set<Ptr>, p: Ptr, sizeOf: Ptr -> nat)
    requires p in ps
    ensures SumSizes(ps, sizeOf) == sizeOf(p) + SumSizes(ps - {p}, sizeOf)
    decreases ps
  {
    var q :| q in ps && SumSizes(ps, sizeOf) == sizeOf(q) + SumSizes(ps - {q}, sizeOf);
    if q != p {
      SumSizesRemove(ps - {q}, p, sizeOf);
      SumSizesRemove(ps - {p}, q, sizeOf);
      assert ps - {q} - {p} == ps - {p} - {q};
    }
  }

  /** The total of a disjoint union is the sum of the totals. */
  lemma {:induction false} SumSizesUnion(a: set<Ptr>, b: set<Ptr>, sizeOf: Ptr -> nat)
    requires a !! b
    ensures SumSizes(a + b, sizeOf) == SumSizes(a, sizeOf) + SumSizes(b, sizeOf)
    decreases a
  {
    if a != {} {
      var p :| p in a;
      SumSizesRemove(a, p, sizeOf);
      SumSizesRemove(a + b, p, sizeOf);
      assert (a + b) - {p} == (a - {p}) + b;
      SumSizesUnion(a - {p}, b, sizeOf);
    } else {
      assert a + b == b;
    }
  }

  /**
   * The total size of the entries of a queue, element by element, as a
   * stream over the queue adds it up.
   */
  function SumQueue(q: seq<Entry>, sizeOf: Ptr -> nat): nat
    decreases |q|
  {
    if q == [] then 0
    else SumQueue(q[..|q| - 1], sizeOf) + sizeOf(q[|q| - 1].ptr)
  }

  /** When the entries own distinct pointers, the queue's total is the total of its pointers. */
  lemma {:induction false} SumQueueIsSumSizes(q: seq<Entry>, sizeOf: Ptr -> nat)
    requires DistinctPointers(q)
    ensures SumQueue(q, sizeOf) == SumSizes(PointersOf(q), sizeOf)
    decreases |q|
  {
    if q == [] {
      assert PointersOf(q) == {};
    } else {
      var init, last := q[..|q| - 1], q[|q| - 1];
      PointersOfLast(q);
      SumQueueIsSumSizes(init, sizeOf);
      SumSizesRemove(PointersOf(q), last.ptr, sizeOf);
      assert PointersOf(q) - {last.ptr} == PointersOf(init);
    }
  }
}
