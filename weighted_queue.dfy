/**
 * The weighted queue of free entries: a tree set ordered by the entry
 * comparator, represented by its in-order contents, a sequence whose ranks
 * strictly increase. Entries of equal rank are one element of the set.
 */
module WeightedQueue {
  import opened CacheEntry

  /** The representation invariant of the tree: ranks strictly increase. */
  predicate Sorted(q: seq<Entry>) {
    forall i, j :: 0 <= i < j < |q| ==> Before(RankOf(q[i]), RankOf(q[j]))
  }

  /** The set of entries the queue holds. */
  function Elements(q: seq<Entry>): set<Entry> {
    set e | e in q
  }

  /** The pointers of the entries the queue holds. */
  function PointersOf(q: seq<Entry>): set<Ptr> {
    set e | e in q :: e.ptr
  }

  /** The ranks of the entries of `q`. */
  function Ranks(q: seq<Entry>): set<Rank> {
    set e | e in q :: RankOf(e)
  }

  /** Some element of `q` is comparator-equal to an entry of rank `r`. */
  predicate HasRank(q: seq<Entry>, r: Rank) {
    exists i :: 0 <= i < |q| && RankOf(q[i]) == r
  }

  /** No two distinct entries of `s` share a rank. */
  predicate RankInjective(s: set<Entry>) {
    forall a, b :: a in s && b in s && RankOf(a) == RankOf(b) ==> a == b
  }

  lemma HasRankIffInRanks(q: seq<Entry>, r: Rank)
    ensures HasRank(q, r) <==> r in Ranks(q)
  {
    if r in Ranks(q) {
      var e :| e in q && RankOf(e) == r;
      var i :| 0 <= i < |q| && q[i] == e;
    }
  }

  /** Every later element of a sorted queue ranks after the first. */
  lemma FirstIsLeast(q: seq<Entry>)
    requires Sorted(q) && |q| > 0
    ensures forall x :: x in q && x != q[0] ==> Before(RankOf(q[0]), RankOf(x))
    ensures !HasRank(q[1..], RankOf(q[0]))
    ensures Elements(q[1..]) == Elements(q) - {q[0]}
  {
    TailFacts(q);
    assert q == [q[0]] + q[1..];
  }

  /** How a non-empty sorted queue splits into its first element and the rest. */
  lemma TailFacts(q: seq<Entry>)
    requires Sorted(q) && |q| > 0
    ensures Sorted(q[1..])
    ensures q == [q[0]] + q[1..]
    ensures forall x :: x in q[1..] ==> Before(RankOf(q[0]), RankOf(x))
    ensures forall r :: HasRank(q, r) <==> RankOf(q[0]) == r || HasRank(q[1..], r)
  {
    forall x | x in q[1..] ensures Before(RankOf(q[0]), RankOf(x)) {
      var j :| 0 <= j < |q[1..]| && q[1..][j] == x;
      assert x == q[j + 1];
    }
    forall r ensures HasRank(q, r) <==> RankOf(q[0]) == r || HasRank(q[1..], r) {
      if HasRank(q, r) && RankOf(q[0]) != r {
        var i :| 0 <= i < |q| && RankOf(q[i]) == r;
        assert RankOf(q[1..][i - 1]) == r;
      }
      if HasRank(q[1..], r) {
        var i :| 0 <= i < |q[1..]| && RankOf(q[1..][i]) == r;
        assert RankOf(q[i + 1]) == r;
      }
      if RankOf(q[0]) == r {
        assert RankOf(q[0]) == r;
      }
    }
  }

  /** Putting an entry that ranks before all of a sorted queue in front keeps it sorted. */
  lemma ConsSorted(x: Entry, rest: seq<Entry>)
    requires Sorted(rest)
    requires forall y :: y in rest ==> Before(RankOf(x), RankOf(y))
    ensures Sorted([x] + rest)
  {
    var r := [x] + rest;
    forall i, j | 0 <= i < j < |r| ensures Before(RankOf(r[i]), RankOf(r[j])) {
      assert r[j] == rest[j - 1] && rest[j - 1] in rest;
      if i > 0 {
        assert r[i] == rest[i - 1];
      }
    }
  }

  /** In a sorted queue, entries of equal rank are the same entry. */
  lemma SortedRankUnique(q: seq<Entry>, x: Entry, y: Entry)
    requires Sorted(q) && x in q && y in q && RankOf(x) == RankOf(y)
    ensures x == y
  {
    var i :| 0 <= i < |q| && q[i] == x;
    var j :| 0 <= j < |q| && q[j] == y;
    assert !(i < j) && !(j < i);
  }

  /** A sorted queue holds distinct entries: it has as many elements as its length. */
  lemma {:induction false} ElementsCount(q: seq<Entry>)
    requires Sorted(q)
    ensures |Elements(q)| == |q|
  {
    if q != [] {
      FirstIsLeast(q);
      TailFacts(q);
      ElementsCount(q[1..]);
      assert q[0] in Elements(q);
      assert Elements(q) == Elements(q[1..]) + {q[0]};
    }
  }

  /**
   * `TreeSet.add(e)`: inserts `e` at its place in the order, unless the set
   * already holds an element comparator-equal to `e`, which then stays.
   */
  function Insert(q: seq<Entry>, e: Entry): (r: seq<Entry>)
    requires Sorted(q)
    ensures Sorted(r)
    ensures HasRank(q, RankOf(e)) ==> r == q
    ensures !HasRank(q, RankOf(e)) ==> Elements(r) == Elements(q) + {e} && |r| == |q| + 1
    ensures HasRank(r, RankOf(e))
  {
    if q == [] then
      assert RankOf([e][0]) == RankOf(e);
      [e]
    else if RankOf(q[0]) == RankOf(e) then
      TailFacts(q);
      q
    else if Before(RankOf(e), RankOf(q[0])) then
      TailFacts(q);
      assert !HasRank(q, RankOf(e)) by {
        forall i | 0 <= i < |q| ensures RankOf(q[i]) != RankOf(e) {
          assert i == 0 || Before(RankOf(q[0]), RankOf(q[i]));
        }
      }
      ConsSorted(e, q);
      assert Elements([e] + q) == Elements(q) + {e};
      assert RankOf(([e] + q)[0]) == RankOf(e);
      [e] + q
    else
      TailFacts(q);
      var rest := Insert(q[1..], e);
      assert forall x :: x in rest ==> Before(RankOf(q[0]), RankOf(x)) by {
        forall x | x in rest ensures Before(RankOf(q[0]), RankOf(x)) {
          assert x in Elements(rest);
        }
      }
      ConsSorted(q[0], rest);
      var r := [q[0]] + rest;
      assert Elements(r) == Elements(rest) + {q[0]};
      assert Elements(q) == Elements(q[1..]) + {q[0]};
      assert HasRank(r, RankOf(e)) by {
        var i :| 0 <= i < |rest| && RankOf(rest[i]) == RankOf(e);
        assert r[i + 1] == rest[i];
      }
      r
  }

  /**
   * `TreeSet.remove(e)`: drops the element comparator-equal to `e`, if
   * there is one; otherwise nothing changes.
   */
  function Remove(q: seq<Entry>, e: Entry): (r: seq<Entry>)
    requires Sorted(q)
    ensures Sorted(r)
    ensures !HasRank(r, RankOf(e))
    ensures forall x :: x in r <==> x in q && RankOf(x) != RankOf(e)
    ensures !HasRank(q, RankOf(e)) ==> r == q
    ensures HasRank(q, RankOf(e)) ==> |r| == |q| - 1
  {
    if q == [] then []
    else if RankOf(q[0]) == RankOf(e) then
      TailFacts(q);
      RemoveHead(q, e);
      q[1..]
    else
      TailFacts(q);
      var rest := Remove(q[1..], e);
      RemoveCons(q, e, rest);
      [q[0]] + rest
  }

  lemma RemoveHead(q: seq<Entry>, e: Entry)
    requires Sorted(q) && |q| > 0 && RankOf(q[0]) == RankOf(e)
    ensures !HasRank(q[1..], RankOf(e))
    ensures forall x :: x in q[1..] <==> x in q && RankOf(x) != RankOf(e)
  {
    TailFacts(q);
    forall i | 0 <= i < |q[1..]| ensures RankOf(q[1..][i]) != RankOf(e) {
      assert q[1..][i] in q[1..];
    }
  }

  lemma RemoveCons(q: seq<Entry>, e: Entry, rest: seq<Entry>)
    requires Sorted(q) && |q| > 0 && RankOf(q[0]) != RankOf(e)
    requires Sorted(rest) && !HasRank(rest, RankOf(e))
    requires forall x :: x in rest <==> x in q[1..] && RankOf(x) != RankOf(e)
    ensures Sorted([q[0]] + rest)
    ensures !HasRank([q[0]] + rest, RankOf(e))
    ensures forall x :: x in [q[0]] + rest <==> x in q && RankOf(x) != RankOf(e)
  {
    TailFacts(q);
    ConsSorted(q[0], rest);
    var r := [q[0]] + rest;
    forall i | 0 <= i < |r| ensures RankOf(r[i]) != RankOf(e) {
      if i > 0 {
        assert r[i] == rest[i - 1];
      }
    }
  }

  /**
   * `TreeSet.addAll(l)` for a list `l`: inserts the elements of `l` one
   * after the other, in list order.
   */
  function AddAll(q: seq<Entry>, l: seq<Entry>): (r: seq<Entry>)
    requires Sorted(q)
    ensures Sorted(r)
    ensures Elements(q) <= Elements(r) <= Elements(q) + Elements(l)
    ensures Ranks(r) == Ranks(q) + Ranks(l)
    decreases |l|
  {
    if l == [] then q
    else
      var init := AddAll(q, l[..|l| - 1]);
      InsertRanks(init, l[|l| - 1]);
      LastSplit(l);
      Insert(init, l[|l| - 1])
  }

  lemma FrontOfAppend(l1: seq<Entry>, l2: seq<Entry>)
    requires l2 != []
    ensures (l1 + l2)[..|l1 + l2| - 1] == l1 + l2[..|l2| - 1]
    ensures (l1 + l2)[|l1 + l2| - 1] == l2[|l2| - 1]
  {
  }

  lemma AddAllUnfold(q: seq<Entry>, l: seq<Entry>)
    requires Sorted(q) && l != []
    ensures AddAll(q, l) == Insert(AddAll(q, l[..|l| - 1]), l[|l| - 1])
  {
  }

  /** Inserting adds the entry's rank, and at most the entry itself. */
  lemma InsertRanks(q: seq<Entry>, e: Entry)
    requires Sorted(q)
    ensures Ranks(Insert(q, e)) == Ranks(q) + {RankOf(e)}
    ensures Elements(q) <= Elements(Insert(q, e)) <= Elements(q) + {e}
  {
    var r := Insert(q, e);
    HasRankIffInRanks(q, RankOf(e));
    HasRankIffInRanks(r, RankOf(e));
    if !HasRank(q, RankOf(e)) {
      assert Elements(r) == Elements(q) + {e};
      forall x | x in Ranks(r) ensures x in Ranks(q) + {RankOf(e)} {
        var y :| y in r && RankOf(y) == x;
        assert y in Elements(r);
      }
      forall x | x in Ranks(q) ensures x in Ranks(r) {
        var y :| y in q && RankOf(y) == x;
        assert y in Elements(q);
        assert y in Elements(r);
      }
    }
  }

  /** The ranks and elements of a list are those of its front and of its last element. */
  lemma LastSplit(l: seq<Entry>)
    requires l != []
    ensures Ranks(l) == Ranks(l[..|l| - 1]) + {RankOf(l[|l| - 1])}
    ensures Elements(l) == Elements(l[..|l| - 1]) + {l[|l| - 1]}
  {
    assert l == l[..|l| - 1] + [l[|l| - 1]];
    forall x | x in Ranks(l) ensures x in Ranks(l[..|l| - 1]) + {RankOf(l[|l| - 1])} {
      var y :| y in l && RankOf(y) == x;
      var j :| 0 <= j < |l| && l[j] == y;
      if j < |l| - 1 {
        assert y in l[..|l| - 1];
      }
    }
  }

  /**
   * When the entries of `q` and `l` are told apart by their ranks, adding
   * the list yields exactly the union of the two.
   */
  lemma AddAllUnion(q: seq<Entry>, l: seq<Entry>)
    requires Sorted(q)
    requires RankInjective(Elements(q) + Elements(l))
    ensures Elements(AddAll(q, l)) == Elements(q) + Elements(l)
  {
    var r := AddAll(q, l);
    forall x | x in Elements(l) ensures x in Elements(r) {
      assert RankOf(x) in Ranks(l);
      assert RankOf(x) in Ranks(r);
      var y :| y in r && RankOf(y) == RankOf(x);
      assert y in Elements(r);
    }
  }

  /** No two positions of `q` hold entries for the same pointer. */
  predicate DistinctPointers(q: seq<Entry>) {
    forall i, j :: 0 <= i < j < |q| ==> q[i].ptr != q[j].ptr
  }

  /** The pointers of a queue are those of its front and of its last entry. */
  lemma PointersOfLast(q: seq<Entry>)
    requires q != []
    ensures PointersOf(q) == PointersOf(q[..|q| - 1]) + {q[|q| - 1].ptr}
    ensures DistinctPointers(q) ==>
      DistinctPointers(q[..|q| - 1]) && q[|q| - 1].ptr !in PointersOf(q[..|q| - 1])
  {
    var init, last := q[..|q| - 1], q[|q| - 1];
    assert q == init + [last];
    if DistinctPointers(q) {
      forall e | e in init ensures e.ptr != last.ptr {
        var j :| 0 <= j < |init| && init[j] == e;
        assert q[j] == e;
      }
    }
  }

  /** A queue holds at most as many pointers as entries, exactly as many when they are distinct. */
  lemma {:induction false} PointersCount(q: seq<Entry>)
    ensures |PointersOf(q)| <= |q|
    ensures DistinctPointers(q) ==> |PointersOf(q)| == |q|
    decreases |q|
  {
    if q != [] {
      PointersOfLast(q);
      PointersCount(q[..|q| - 1]);
    }
  }

  /** Taking an element out and putting it back restores the queue. */
  lemma {:induction false} InsertAfterRemove(q: seq<Entry>, e: Entry)
    requires Sorted(q) && e in q
    ensures Insert(Remove(q, e), e) == q
    decreases |q|
  {
    TailFacts(q);
    if q[0] == e {
      RemoveHead(q, e);
      assert Remove(q, e) == q[1..];
      if q[1..] != [] {
        assert q[1..][0] in q[1..];
      }
    } else {
      assert e in q[1..];
      var rest := Remove(q[1..], e);
      assert Remove(q, e) == [q[0]] + rest;
      InsertAfterRemove(q[1..], e);
      var r := [q[0]] + rest;
      assert r[0] == q[0] && r[1..] == rest;
      assert Insert(r, e) == [q[0]] + Insert(rest, e);
    }
  }

  /** Putting in an entry of a new rank and taking it out restores the queue. */
  lemma {:induction false} RemoveAfterInsert(q: seq<Entry>, e: Entry)
    requires Sorted(q) && !HasRank(q, RankOf(e))
    ensures Remove(Insert(q, e), e) == q
    decreases |q|
  {
    if q == [] {
    } else {
      TailFacts(q);
      if Before(RankOf(e), RankOf(q[0])) {
        var r := [e] + q;
        assert Insert(q, e) == r;
        assert r[0] == e && r[1..] == q;
      } else {
        var rest := Insert(q[1..], e);
        assert Insert(q, e) == [q[0]] + rest;
        RemoveAfterInsert(q[1..], e);
        var r := [q[0]] + rest;
        assert r[0] == q[0] && r[1..] == rest;
        assert Remove(r, e) == [q[0]] + Remove(rest, e);
      }
    }
  }

  /** Adding two lists one after the other is adding their concatenation. */
  lemma {:induction false} AddAllAppend(q: seq<Entry>, l1: seq<Entry>, l2: seq<Entry>)
    requires Sorted(q)
    ensures AddAll(AddAll(q, l1), l2) == AddAll(q, l1 + l2)
    decreases |l2|
  {
    if l2 == [] {
      assert l1 + l2 == l1;
    } else {
      var init, last := l2[..|l2| - 1], l2[|l2| - 1];
      AddAllAppend(q, l1, init);
      FrontOfAppend(l1, l2);
      AddAllUnfold(q, l1 + l2);
      AddAllUnfold(AddAll(q, l1), l2);
    }
  }
}
