/** Two concrete traces of the cache: eviction order and the byte budget. */
module Scenarios {
  import opened Wrappers
  import opened CacheEntry
  import opened EvictionModel
  import opened Coherence

  /**
   * Entries X (score 3) and Y (score 1) are admitted and released; polling
   * the free entries yields Y first, then X.
   */
  lemma LowerScoreEvictedFirst()
    ensures var x := Entry(LineageKey(1), Ptr(1), 0, false, false);
      var y := Entry(LineageKey(2), Ptr(2), 0, false, false);
      var s1 := AddEntry(Reset(), x, 3);
      s1.Success? && Valid(s1.value)
      && var s2 := AddEntry(s1.value, y, 1);
      s2.Success? && Valid(s2.value) && CanDecrement(s2.value, x.ptr)
      && var s3 := Decrement(s2.value, x.ptr);
      Valid(s3) && CanDecrement(s3, y.ptr)
      && Polls(Decrement(s3, y.ptr), 2) == [y.(score := 1), x.(score := 3)]
  {
    var x := Entry(LineageKey(1), Ptr(1), 0, false, false);
    var y := Entry(LineageKey(2), Ptr(2), 0, false, false);
    var s2 := AddEntry(AddEntry(Reset(), x, 3).value, y, 1).value;
    var s3 := Decrement(s2, x.ptr);
    assert s3.queue == [x.(score := 3)];
    var s4 := Decrement(s3, y.ptr);
    assert s4.queue == [y.(score := 1), x.(score := 3)];
    var (v, t) := PollFirst(s4);
    assert t.queue == [x.(score := 3)];
  }

  /**
   * With a limit of 1,000,000 bytes: 600,000 bytes fit into an empty cache;
   * once they are reserved, 500,000 more do not; evicting the 600,000-byte
   * entry after its release makes room again.
   */
  lemma BudgetScenario()
    ensures var limit := 1000000;
      var a := Entry(LineageKey(1), Ptr(1), 5, false, false);
      var sizeOf := (p: Ptr) => if p == Ptr(1) then 600000 else 500000;
      IsBelowMaxThreshold(Reset(), 600000, limit)
      && var s1 := UpdateSize(AddEntry(Reset(), a, 5).value, 600000, true);
      s1.currentSize == 600000
      && !IsBelowMaxThreshold(s1, 500000, limit)
      && Valid(s1) && CanDecrement(s1, a.ptr)
      && var s2 := Decrement(s1, a.ptr);
      Coherent(s2) && !IsGpuCacheEmpty(s2) && PollFirst(s2).0 == Some(a)
      && var s3 := RemoveFromDeviceCache(PollFirst(s2).1, a, sizeOf);
      IsBelowMaxThreshold(s3, 500000, limit) && Coherent(s3)
  {
    var a := Entry(LineageKey(1), Ptr(1), 5, false, false);
    var sizeOf := (p: Ptr) => if p == Ptr(1) then 600000 else 500000;
    ResetCoherent();
    AddEntryCoherent(Reset(), a, 5);
    var s1 := UpdateSize(AddEntry(Reset(), a, 5).value, 600000, true);
    assert Coherent(s1) by {
      assert FreeEntries(s1) == FreeEntries(AddEntry(Reset(), a, 5).value);
    }
    DecrementCoherent(s1, a.ptr);
    var s2 := Decrement(s1, a.ptr);
    assert s2.queue == [a];
    EvictLeastCoherent(s2, sizeOf);
  }
}
