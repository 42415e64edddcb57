/** The order of a book's waitlist: by position, ties broken by id. This is the order a stable
    sort by position gives to a list that the repository returns in id order. */
module Ordering {
  import opened Reservations

  /** The ids of the stored reservations of book `b`. */
  ghost function BookIds(m: Store, b: int): set<int>
  {
    set id | id in m && m[id].bookId == b
  }

  /** Reservation `j` comes before reservation `i` in the queue. */
  predicate Ahead(m: Store, j: int, i: int)
    requires j in m && i in m
  {
    m[j].position < m[i].position || (m[j].position == m[i].position && j < i)
  }

  predicate Distinct(s: seq<int>)
  {
    forall p, q :: 0 <= p < q < |s| ==> s[p] != s[q]
  }

  /** `s` lists stored reservations in queue order. */
  predicate InQueueOrder(m: Store, s: seq<int>)
    requires forall k :: 0 <= k < |s| ==> s[k] in m
  {
    forall p, q :: 0 <= p < q < |s| ==> Ahead(m, s[p], s[q])
  }

  /** The number of reservations of book `b` ahead of reservation `id`: its zero-based rank. */
  ghost function Rank(m: Store, b: int, id: int): nat
    requires id in m
  {
    |set j | j in m && m[j].bookId == b && Ahead(m, j, id)|
  }

  /** `reservations.sort(Comparator.comparing(Reservation::getPosition))`, on the list of
      references the repository returned, here an array of ids. Insertion sort by swaps. */
  method SortByPosition(m: Store, a: array<int>)
    requires forall k :: 0 <= k < a.Length ==> a[k] in m
    requires Distinct(a[..])
    modifies a
    ensures forall k :: 0 <= k < a.Length ==> a[k] in m
    ensures InQueueOrder(m, a[..])
    ensures multiset(a[..]) == multiset(old(a[..]))
  {
    var i := 0;
    while i < a.Length
      invariant 0 <= i <= a.Length
      invariant forall k :: 0 <= k < a.Length ==> a[k] in m
      invariant Distinct(a[..])
      invariant forall p, q :: 0 <= p < q < i ==> Ahead(m, a[p], a[q])
      invariant multiset(a[..]) == multiset(old(a[..]))
    {
      SinkInto(m, a, i);
      i := i + 1;
    }
  }

  /** One pass of the insertion sort: `a[i]` moves down past every element of the sorted prefix
      `a[..i]` that it comes ahead of, so that `a[..i + 1]` is sorted. */
  method SinkInto(m: Store, a: array<int>, i: int)
    requires 0 <= i < a.Length
    requires forall k :: 0 <= k < a.Length ==> a[k] in m
    requires Distinct(a[..])
    requires forall p, q :: 0 <= p < q < i ==> Ahead(m, a[p], a[q])
    modifies a
    ensures forall k :: 0 <= k < a.Length ==> a[k] in m
    ensures Distinct(a[..])
    ensures forall p, q :: 0 <= p < q <= i ==> Ahead(m, a[p], a[q])
    ensures multiset(a[..]) == multiset(old(a[..]))
  {
    var j := i;
    while j > 0 && Ahead(m, a[j], a[j - 1])
      invariant 0 <= j <= i
      invariant forall k :: 0 <= k < a.Length ==> a[k] in m
      invariant Distinct(a[..])
      invariant forall p, q :: 0 <= p < q <= i && p != j && q != j ==> Ahead(m, a[p], a[q])
      invariant forall q :: j < q <= i ==> Ahead(m, a[j], a[q])
      invariant multiset(a[..]) == multiset(old(a[..]))
    {
      a[j - 1], a[j] := a[j], a[j - 1];
      j := j - 1;
    }
  }

  lemma {:induction false} DistinctPrefixCard(s: seq<int>, k: nat)
    requires k <= |s| && Distinct(s)
    ensures |set p | 0 <= p < k :: s[p]| == k
  {
    if k > 0 {
      DistinctPrefixCard(s, k - 1);
      assert (set p | 0 <= p < k :: s[p]) == (set p | 0 <= p < k - 1 :: s[p]) + {s[k - 1]};
    }
  }

  /** In a list of exactly book `b`'s reservations sorted into queue order,
      the reservation at index `k` has exactly `k` reservations ahead of it. */
  lemma SortedRank(m: Store, b: int, s: seq<int>, k: int)
    requires forall p :: 0 <= p < |s| ==> s[p] in m
    requires InQueueOrder(m, s)
    requires forall id :: id in BookIds(m, b) <==> id in s
    requires 0 <= k < |s|
    ensures Rank(m, b, s[k]) == k
  {
    var ahead := set j | j in m && m[j].bookId == b && Ahead(m, j, s[k]);
    var prefix := set p | 0 <= p < k :: s[p];
    forall j | j in ahead ensures j in prefix {
      assert j in BookIds(m, b);
      var q :| 0 <= q < |s| && s[q] == j;
    }
    forall j | j in prefix ensures j in ahead {
      var p :| 0 <= p < k && s[p] == j;
      assert Ahead(m, s[p], s[k]);
      assert s[p] in BookIds(m, b);
    }
    assert ahead == prefix;
    assert Distinct(s) by {
      forall p, q | 0 <= p < q < |s| ensures s[p] != s[q] {
        assert Ahead(m, s[p], s[q]);
      }
    }
    DistinctPrefixCard(s, k);
  }
}
