/** The waitlist invariants and the effect of each queue-changing operation on the store,
    stated on values, with the lemmas that relate them. */
module Queue {
  import opened Reservations
  import opened Ordering

  /** Book `b`'s positions are exactly 1..N, N its number of reservations:
      each lies in that range and no two are equal. */
  ghost predicate Contiguous(m: Store, b: int)
  {
    (forall id :: id in BookIds(m, b) ==> 1 <= m[id].position <= |BookIds(m, b)|) &&
    (forall i, j :: i in BookIds(m, b) && j in BookIds(m, b) && i != j ==> m[i].position != m[j].position)
  }

  ghost predicate QueuesContiguous(m: Store)
  {
    forall b :: Contiguous(m, b)
  }

  /** At most one reservation per (customer, book) pair. */
  ghost predicate UniquePairs(m: Store)
  {
    forall i, j :: i in m && j in m && m[i].customerId == m[j].customerId && m[i].bookId == m[j].bookId ==> i == j
  }

  /** `m2` holds the same reservations as `m`, in the same queues at the same positions. */
  ghost predicate SameQueues(m: Store, m2: Store)
  {
    m2.Keys == m.Keys &&
    forall id :: id in m ==> m2[id].bookId == m[id].bookId && m2[id].position == m[id].position
  }

  /** Reservation `id` after book `b`'s expected dates are set from `dates` by rank:
      the reservation with k others ahead of it takes `dates[k]`, when the list reaches that far. */
  ghost function RankDated(m: Store, b: int, dates: seq<int>, id: int): Reservation
    requires id in m
  {
    var r := m[id];
    if r.bookId == b && Rank(m, b, id) < |dates|
    then r.(soonDisponibilityDate := dates[Rank(m, b, id)])
    else r
  }

  /** The store after a date refresh of book `b` (updateDateResaBookId, and the last step of delete). */
  ghost function WithRankDates(m: Store, b: int, dates: seq<int>): Store
  {
    map id | id in m :: RankDated(m, b, dates, id)
  }

  /** A reservation after the deletion of position `p` from book `b`'s queue. */
  function Closed(r: Reservation, b: int, p: int): Reservation
  {
    if r.bookId == b && r.position > p then r.(position := r.position - 1) else r
  }

  ghost function ClosedGap(m: Store, b: int, p: int): Store
  {
    map id | id in m :: Closed(m[id], b, p)
  }

  /** Delete renumbers and re-dates only when reservations remain for the book
      and the return-date list is not empty. */
  ghost predicate Reindexes(m: Store, id: int, dates: seq<int>)
    requires id in m
  {
    BookIds(m - {id}, m[id].bookId) != {} && dates != []
  }

  /** The store after `delete(id, dates)`: the record is removed; when the queue is reindexed,
      the reservations behind it move up one place and all take their dates by their new rank. */
  ghost function Deleted(m: Store, id: int, dates: seq<int>): Store
    requires id in m
  {
    var rest := m - {id};
    if Reindexes(m, id, dates)
    then WithRankDates(ClosedGap(rest, m[id].bookId, m[id].position), m[id].bookId, dates)
    else rest
  }

  /** `m2` has the same records as `m` except for positions, dates and deadlines. */
  ghost predicate SameHolders(m: Store, m2: Store)
  {
    m2.Keys == m.Keys &&
    forall id :: id in m ==>
      m2[id].id == m[id].id && m2[id].customerId == m[id].customerId && m2[id].bookId == m[id].bookId
  }

  lemma SameHoldersKeepUnique(m: Store, m2: Store)
    requires SameHolders(m, m2) && UniquePairs(m)
    ensures UniquePairs(m2)
  {
  }

  // ---------------------------------------------------------------------------------------
  // Walking a queue in position order

  /** `order` lists book `b`'s reservations so that the one at index k has k others ahead of it. */
  ghost predicate RankedOrder(m: Store, b: int, order: seq<int>)
  {
    (forall k :: 0 <= k < |order| ==> order[k] in m && Rank(m, b, order[k]) == k) &&
    (forall id :: id in BookIds(m, b) <==> id in order)
  }

  lemma RankedOrderRanks(m: Store, b: int, order: seq<int>, j: int)
    requires RankedOrder(m, b, order) && j in m && m[j].bookId == b
    ensures Rank(m, b, j) < |order| && order[Rank(m, b, j)] == j
  {
    assert j in BookIds(m, b);
    var k :| 0 <= k < |order| && order[k] == j;
  }

  /** The date refresh after its first `i` ranks: those reservations have their new dates, the others their old ones. */
  ghost predicate DatedBelow(s: Store, m: Store, b: int, dates: seq<int>, i: int)
  {
    s.Keys == m.Keys &&
    forall id :: id in m ==>
      s[id] == if m[id].bookId == b && Rank(m, b, id) < i then RankDated(m, b, dates, id) else m[id]
  }

  lemma DatedStep(s: Store, m: Store, b: int, dates: seq<int>, order: seq<int>, i: int)
    requires RankedOrder(m, b, order) && DatedBelow(s, m, b, dates, i)
    requires 0 <= i < |order| && i < |dates|
    ensures DatedBelow(s[order[i] := s[order[i]].(soonDisponibilityDate := dates[i])], m, b, dates, i + 1)
  {
    var id := order[i];
    var s2 := s[id := s[id].(soonDisponibilityDate := dates[i])];
    assert id in BookIds(m, b);
    forall j | j in m
      ensures s2[j] == if m[j].bookId == b && Rank(m, b, j) < i + 1 then RankDated(m, b, dates, j) else m[j]
    {
      if m[j].bookId == b {
        RankedOrderRanks(m, b, order, j);
      }
    }
  }

  lemma DatedDone(s: Store, m: Store, b: int, dates: seq<int>, order: seq<int>, i: int)
    requires RankedOrder(m, b, order) && DatedBelow(s, m, b, dates, i)
    requires 0 <= i <= |order| && i <= |dates| && (i == |order| || i == |dates|)
    ensures s == WithRankDates(m, b, dates)
    ensures SameHolders(m, s) && SameQueues(m, s)
  {
    forall j | j in m && m[j].bookId == b {
      RankedOrderRanks(m, b, order, j);
    }
    assert forall j :: j in m ==> s[j] == WithRankDates(m, b, dates)[j];
  }

  /** The capacity refresh after its first `i` ranks: those reservations have the deadline, the others are as they were. */
  ghost predicate DeadlinedBelow(s: Store, m: Store, b: int, deadline: int, i: int)
  {
    s.Keys == m.Keys &&
    forall id :: id in m ==>
      s[id] == if m[id].bookId == b && Rank(m, b, id) < i then m[id].(endOfPriority := Some(deadline)) else m[id]
  }

  lemma DeadlineStep(s: Store, m: Store, b: int, deadline: int, order: seq<int>, i: int)
    requires RankedOrder(m, b, order) && DeadlinedBelow(s, m, b, deadline, i)
    requires 0 <= i < |order|
    ensures DeadlinedBelow(s[order[i] := s[order[i]].(endOfPriority := Some(deadline))], m, b, deadline, i + 1)
  {
    var id := order[i];
    var s2 := s[id := s[id].(endOfPriority := Some(deadline))];
    assert id in BookIds(m, b);
    forall j | j in m
      ensures s2[j] == if m[j].bookId == b && Rank(m, b, j) < i + 1 then m[j].(endOfPriority := Some(deadline)) else m[j]
    {
      if m[j].bookId == b {
        RankedOrderRanks(m, b, order, j);
      }
    }
  }

  lemma DeadlineDone(s: Store, m: Store, b: int, deadline: int, order: seq<int>)
    requires RankedOrder(m, b, order) && DeadlinedBelow(s, m, b, deadline, |order|)
    ensures forall id :: id in m ==>
              s[id] == if m[id].bookId == b then m[id].(endOfPriority := Some(deadline)) else m[id]
    ensures SameHolders(m, s) && SameQueues(m, s)
  {
    forall j | j in m && m[j].bookId == b {
      RankedOrderRanks(m, b, order, j);
    }
  }

  // ---------------------------------------------------------------------------------------
  // Counting positions

  /** Reservations with pairwise distinct positions in [lo, hi) are at most hi - lo. */
  lemma {:induction false} DistinctPositionsBound(m: Store, xs: set<int>, lo: int, hi: int)
    requires lo <= hi
    requires forall x :: x in xs ==> x in m && lo <= m[x].position < hi
    requires forall x, y :: x in xs && y in xs && x != y ==> m[x].position != m[y].position
    ensures |xs| <= hi - lo
    decreases hi - lo
  {
    if lo == hi {
      assert forall x :: x !in xs;
      assert xs == {};
    } else {
      var below := set x | x in xs && m[x].position < hi - 1;
      DistinctPositionsBound(m, below, lo, hi - 1);
      if t :| t in xs && m[t].position == hi - 1 {
        forall x | x in xs ensures x in below || x == t {
          if m[x].position == hi - 1 { assert x == t; }
        }
        assert xs == below + {t};
      } else {
        forall x | x in xs ensures x in below {
          assert m[x].position != hi - 1;
        }
        assert xs == below;
      }
    }
  }

  /** In a contiguous queue a reservation's rank is its position minus one. */
  lemma ContiguousRank(m: Store, b: int, id: int)
    requires Contiguous(m, b) && id in BookIds(m, b)
    ensures Rank(m, b, id) == m[id].position - 1
  {
    var books := BookIds(m, b);
    var p := m[id].position;
    var n := |books|;
    var before := set j | j in m && m[j].bookId == b && Ahead(m, j, id);
    var after := set j | j in m && m[j].bookId == b && Ahead(m, id, j);
    forall j | j in before ensures 1 <= m[j].position < p {
      assert j in books;
    }
    forall j | j in after ensures p < m[j].position <= n {
      assert j in books;
    }
    forall j | j in books ensures j in before || j in after || j == id {
    }
    assert books == before + after + {id};
    assert before !! after;
    assert |before + after| == |before| + |after|;
    DistinctPositionsBound(m, before, 1, p);
    DistinctPositionsBound(m, after, p + 1, n + 1);
  }

  /** Stores with the same queues agree on membership, contiguity and rank. */
  lemma SameQueuesAgree(m: Store, m2: Store, b: int)
    requires SameQueues(m, m2)
    ensures BookIds(m2, b) == BookIds(m, b)
    ensures Contiguous(m, b) <==> Contiguous(m2, b)
    ensures forall id :: id in m ==> Rank(m2, b, id) == Rank(m, b, id)
  {
    forall id ensures id in BookIds(m2, b) <==> id in BookIds(m, b) {
      if id in m { assert m2[id].bookId == m[id].bookId; }
    }
    forall id | id in m ensures Rank(m2, b, id) == Rank(m, b, id) {
      assert (set j | j in m2 && m2[j].bookId == b && Ahead(m2, j, id))
          == (set j | j in m && m[j].bookId == b && Ahead(m, j, id));
    }
  }

  // ---------------------------------------------------------------------------------------
  // Date refresh

  /** A date refresh changes only expected dates; in a contiguous queue the reservation at
      position p takes `dates[p - 1]`, and keeps its date when the list is shorter than p. */
  lemma DateRefreshByPosition(m: Store, b: int, dates: seq<int>, id: int)
    requires Contiguous(m, b) && id in BookIds(m, b)
    ensures SameQueues(m, WithRankDates(m, b, dates))
    ensures m[id].position <= |dates| ==>
              WithRankDates(m, b, dates)[id] == m[id].(soonDisponibilityDate := dates[m[id].position - 1])
    ensures m[id].position > |dates| ==> WithRankDates(m, b, dates)[id] == m[id]
  {
    ContiguousRank(m, b, id);
  }

  /** A date refresh leaves the other books' reservations as they were, and an empty queue changes nothing. */
  lemma DateRefreshOtherBooks(m: Store, b: int, dates: seq<int>)
    ensures forall id :: id in m && m[id].bookId != b ==> WithRankDates(m, b, dates)[id] == m[id]
    ensures BookIds(m, b) == {} ==> WithRankDates(m, b, dates) == m
  {
    if BookIds(m, b) == {} {
      assert forall id :: id in m ==> m[id].bookId != b by {
        forall id | id in m ensures m[id].bookId != b {
          assert id in BookIds(m, b) <==> m[id].bookId == b;
        }
      }
    }
  }

  // ---------------------------------------------------------------------------------------
  // Delete

  /** Deleting removes exactly the one record and never changes who holds a reservation for what. */
  lemma DeleteRemovesOne(m: Store, id: int, dates: seq<int>)
    requires id in m
    ensures Deleted(m, id, dates).Keys == m.Keys - {id}
    ensures forall j :: j in Deleted(m, id, dates) ==>
              var r := Deleted(m, id, dates)[j];
              r.id == m[j].id && r.customerId == m[j].customerId && r.bookId == m[j].bookId &&
              r.creationReservationDate == m[j].creationReservationDate && r.endOfPriority == m[j].endOfPriority
  {
  }

  /** With a non-empty date list, every reservation of the book behind the deleted one moves up
      one place and every other reservation keeps its position; other books are untouched. */
  lemma DeleteClosesGap(m: Store, id: int, dates: seq<int>, j: int)
    requires id in m && j in m && j != id && dates != []
    ensures j in Deleted(m, id, dates)
    ensures Deleted(m, id, dates)[j].position ==
              if m[j].bookId == m[id].bookId && m[j].position > m[id].position
              then m[j].position - 1 else m[j].position
    ensures m[j].bookId != m[id].bookId ==> Deleted(m, id, dates)[j] == m[j]
  {
    if m[j].bookId == m[id].bookId {
      assert j in BookIds(m - {id}, m[id].bookId);
    }
  }

  lemma ClosingGapKeepsContiguous(m: Store, id: int, c: int)
    requires id in m && Contiguous(m, c)
    ensures Contiguous(ClosedGap(m - {id}, m[id].bookId, m[id].position), c)
  {
    var b := m[id].bookId;
    var closed := ClosedGap(m - {id}, b, m[id].position);
    forall j ensures j in BookIds(closed, c) <==> j in BookIds(m, c) - {id} {
      if j in closed { assert closed[j].bookId == m[j].bookId; }
    }
    if c == b {
      var d := m[id].position;
      assert BookIds(m, b) == BookIds(closed, b) + {id};
      assert |BookIds(closed, b)| == |BookIds(m, b)| - 1;
      forall j | j in BookIds(closed, b) ensures 1 <= closed[j].position <= |BookIds(closed, b)| {
        assert j in BookIds(m, b) && m[j].position != d;
      }
      forall i, j | i in BookIds(closed, b) && j in BookIds(closed, b) && i != j
        ensures closed[i].position != closed[j].position
      {
        assert i in BookIds(m, b) && j in BookIds(m, b) && m[i].position != m[j].position;
        assert m[i].position != d && m[j].position != d;
      }
    } else {
      assert id !in BookIds(m, c);
      assert BookIds(closed, c) == BookIds(m, c);
      assert forall j :: j in BookIds(closed, c) ==> closed[j] == m[j];
    }
  }

  /** Delete keeps every queue's positions 1..N when the date list is not empty. */
  lemma DeleteKeepsContiguous(m: Store, id: int, dates: seq<int>)
    requires QueuesContiguous(m) && id in m && dates != []
    ensures QueuesContiguous(Deleted(m, id, dates))
  {
    var b := m[id].bookId;
    var rest := m - {id};
    if Reindexes(m, id, dates) {
      var closed := ClosedGap(rest, b, m[id].position);
      forall c ensures Contiguous(Deleted(m, id, dates), c) {
        ClosingGapKeepsContiguous(m, id, c);
        SameQueuesAgree(closed, WithRankDates(closed, b, dates), c);
      }
    } else {
      forall c ensures Contiguous(rest, c) {
        assert Contiguous(m, c);
        forall j ensures j in BookIds(rest, c) <==> j in BookIds(m, c) - {id} {
        }
        if c != b {
          assert id !in BookIds(m, c);
          assert BookIds(rest, c) == BookIds(m, c);
        }
      }
    }
  }

  /** In a contiguous queue, delete keeps the relative order of the reservations that remain. */
  lemma DeleteKeepsOrder(m: Store, id: int, dates: seq<int>, i: int, j: int)
    requires id in m && Contiguous(m, m[id].bookId)
    requires i in BookIds(m, m[id].bookId) && j in BookIds(m, m[id].bookId) && i != id && j != id
    ensures i in Deleted(m, id, dates) && j in Deleted(m, id, dates)
    ensures Ahead(m, i, j) <==> Ahead(Deleted(m, id, dates), i, j)
  {
    assert i in BookIds(m - {id}, m[id].bookId);
  }

  /** After a delete that reindexes a contiguous queue, the reservation now at position p takes
      `dates[p - 1]` (or keeps its date when the list is shorter than p). */
  lemma DeleteDatesByNewPosition(m: Store, id: int, dates: seq<int>, j: int)
    requires id in m && Contiguous(m, m[id].bookId)
    requires j in BookIds(m, m[id].bookId) && j != id && dates != []
    ensures j in Deleted(m, id, dates)
    ensures var r := Deleted(m, id, dates)[j];
            r.position <= |dates| ==> r.soonDisponibilityDate == dates[r.position - 1]
    ensures var r := Deleted(m, id, dates)[j];
            r.position > |dates| ==> r.soonDisponibilityDate == m[j].soonDisponibilityDate
  {
    var b := m[id].bookId;
    var closed := ClosedGap(m - {id}, b, m[id].position);
    assert j in BookIds(m - {id}, b);
    ClosingGapKeepsContiguous(m, id, b);
    assert j in BookIds(closed, b);
    ContiguousRank(closed, b, j);
  }

  /** Three reservations of book 7 at positions 1, 2, 3. */
  ghost function SampleQueue(): Store
  {
    map[1 := Waiting(1, 7, 1), 2 := Waiting(2, 7, 2), 3 := Waiting(3, 7, 3)]
  }

  ghost function Waiting(id: int, b: int, position: int): Reservation
  {
    Reservation(id, b, id, "", "", "", "", 0, position, 0, None)
  }

  /** Deleting position 2 of [1, 2, 3] with an empty date list leaves positions {1, 3}:
      the queue is no longer contiguous, and the next creation (which takes position N + 1)
      is given position 3 a second time. */
  lemma DeleteWithoutDatesLeavesGap()
    ensures Contiguous(SampleQueue(), 7)
    ensures var gap := Deleted(SampleQueue(), 2, []);
            gap.Keys == {1, 3} && gap[3].position == 3 &&
            !Contiguous(gap, 7) && |BookIds(gap, 7)| + 1 == gap[3].position
  {
    var m := SampleQueue();
    assert BookIds(m, 7) == {1, 2, 3};
    var gap := Deleted(m, 2, []);
    assert gap == m - {2};
    assert BookIds(gap, 7) == {1, 3};
  }

  /** Delete as the contiguity invariant requires it: the gap is closed whenever the record is
      removed, and only the date reassignment waits for a non-empty date list. */
  ghost function DeletedClosingGap(m: Store, id: int, dates: seq<int>): Store
    requires id in m
  {
    var closed := ClosedGap(m - {id}, m[id].bookId, m[id].position);
    if dates == [] then closed else WithRankDates(closed, m[id].bookId, dates)
  }

  /** The corrected delete keeps every queue's positions 1..N, whatever the date list. */
  lemma DeleteClosingGapKeepsContiguous(m: Store, id: int, dates: seq<int>)
    requires QueuesContiguous(m) && id in m
    ensures QueuesContiguous(DeletedClosingGap(m, id, dates))
  {
    var b := m[id].bookId;
    var closed := ClosedGap(m - {id}, b, m[id].position);
    forall c ensures Contiguous(DeletedClosingGap(m, id, dates), c) {
      ClosingGapKeepsContiguous(m, id, c);
      if dates != [] {
        SameQueuesAgree(closed, WithRankDates(closed, b, dates), c);
      }
    }
  }

  /** With a non-empty date list the corrected delete is the delete of the code. */
  lemma DeleteClosingGapAgrees(m: Store, id: int, dates: seq<int>)
    requires id in m && dates != []
    ensures DeletedClosingGap(m, id, dates) == Deleted(m, id, dates)
  {
    var b := m[id].bookId;
    var rest := m - {id};
    if !Reindexes(m, id, dates) {
      var closed := ClosedGap(rest, b, m[id].position);
      forall j | j in rest ensures closed[j] == rest[j] && rest[j].bookId != b {
        assert j !in BookIds(rest, b);
      }
      assert closed == rest;
      assert BookIds(closed, b) == {};
      DateRefreshOtherBooks(closed, b, dates);
    }
  }

  // ---------------------------------------------------------------------------------------
  // Create

  /** A new reservation placed at position N + 1 of its book's queue keeps every queue contiguous. */
  lemma SaveKeepsContiguous(m: Store, id: int, r: Reservation)
    requires QueuesContiguous(m) && id !in m && r.position == |BookIds(m, r.bookId)| + 1
    ensures QueuesContiguous(m[id := r])
  {
    var grown := m[id := r];
    forall c ensures Contiguous(grown, c) {
      assert Contiguous(m, c);
      if c == r.bookId {
        assert BookIds(grown, c) == BookIds(m, c) + {id};
      } else {
        assert BookIds(grown, c) == BookIds(m, c);
      }
    }
  }

  /** Adding a reservation for a pair that has none keeps pairs unique. */
  lemma SaveKeepsUnique(m: Store, id: int, r: Reservation)
    requires UniquePairs(m) && id !in m
    requires forall j :: j in m ==> !(m[j].customerId == r.customerId && m[j].bookId == r.bookId)
    ensures UniquePairs(m[id := r])
  {
  }
}
