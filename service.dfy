/** ReservationServiceImpl: the per-book reservation waitlist engine over an in-memory repository.
    Records handed out by the repository are the stored records themselves, so a setter called on
    one changes the store at once (the service never calls save after its in-place updates). */
module Service {
  import opened Reservations
  import opened Ordering
  import opened Queue
  import opened Calendar

  class ReservationService {
    /** The repository's rows, by id. */
    var store: Store
    /** The id the repository gives the next record it saves. */
    var nextId: int
    /** The mails sent, oldest first (an abstract log standing for the mail sender). */
    var sentNotices: seq<Notice>

    ghost predicate Valid()
      reads this
    {
      1 <= nextId &&
      (forall id :: id in store ==> store[id].id == id && 0 < id < nextId) && UniquePairs(store)
    }

    constructor ()
      ensures Valid() && store == map[] && sentNotices == []
    {
      store := map[];
      nextId := 1;
      sentNotices := [];
    }

    // -------------------------------------------------------------------------------------
    // Lookups

    /** findById: the stored reservation with this id, or NotFound. */
    function FindById(reservationId: int): (r: Result<Reservation>)
      reads this
      requires Valid()
      ensures r.Ok? <==> reservationId in store
      ensures r.Ok? ==> r.value == store[reservationId] && r.value.id == reservationId
      ensures r.Err? ==> r.error == NotFound
    {
      if reservationId in store then Ok(store[reservationId]) else Err(NotFound)
    }

    /** findByCustomerIdAndBookId: the customer's reservation for the book, or NotFound. */
    function FindByCustomerIdAndBookId(customerId: int, bookId: int): (r: Result<Reservation>)
      reads this
      requires Valid()
      ensures r.Ok? ==> r.value.id in store && store[r.value.id] == r.value &&
                        r.value.customerId == customerId && r.value.bookId == bookId
      ensures r.Err? <==> forall id :: id in store ==> !(store[id].customerId == customerId && store[id].bookId == bookId)
      ensures r.Err? ==> r.error == NotFound
    {
      if exists id :: id in store && store[id].customerId == customerId && store[id].bookId == bookId then
        var id :| id in store && store[id].customerId == customerId && store[id].bookId == bookId;
        Ok(store[id])
      else
        Err(NotFound)
    }

    /** checkIfReservationExistForCustomerIdAndBookId: the repository's count query;
        it agrees with the lookup and never fails. */
    function ReservationExists(customerId: int, bookId: int): (found: bool)
      reads this
      requires Valid()
      ensures found <==> FindByCustomerIdAndBookId(customerId, bookId).Ok?
    {
      exists id :: id in store && store[id].customerId == customerId && store[id].bookId == bookId
    }

    /** findAllByBookId: the book's reservations (as ids: the references the repository hands out),
        each once, in id order, which is the order the repository keeps its rows in. */
    method FindAllByBookId(bookId: int) returns (ids: seq<int>)
      requires Valid()
      ensures forall k :: 0 <= k < |ids| ==> ids[k] in store
      ensures forall id :: id in BookIds(store, bookId) <==> id in ids
      ensures forall p, q :: 0 <= p < q < |ids| ==> ids[p] < ids[q]
      ensures Distinct(ids)
      ensures |ids| == |BookIds(store, bookId)|
    {
      ids := [];
      var k := 1;
      while k < nextId
        invariant 1 <= k <= nextId
        invariant forall j :: 0 <= j < |ids| ==> ids[j] in store && store[ids[j]].bookId == bookId && ids[j] < k
        invariant forall id :: id in BookIds(store, bookId) && id < k ==> id in ids
        invariant forall p, q :: 0 <= p < q < |ids| ==> ids[p] < ids[q]
      {
        if k in store && store[k].bookId == bookId {
          ids := ids + [k];
        }
        k := k + 1;
      }
      assert Distinct(ids);
      DistinctPrefixCard(ids, |ids|);
      assert (set p | 0 <= p < |ids| :: ids[p]) == BookIds(store, bookId);
    }

    /** The book's reservations copied into a list and sorted by position:
        the reservation at index k has exactly k others ahead of it. */
    method SortedQueue(bookId: int, ids: seq<int>) returns (a: array<int>)
      requires forall k :: 0 <= k < |ids| ==> ids[k] in store
      requires Distinct(ids)
      requires forall id :: id in BookIds(store, bookId) <==> id in ids
      ensures fresh(a) && a.Length == |ids|
      ensures RankedOrder(store, bookId, a[..])
    {
      a := new int[|ids|](k requires 0 <= k < |ids| => ids[k]);
      assert a[..] == ids;
      SortByPosition(store, a);
      forall id ensures id in BookIds(store, bookId) <==> id in a[..] {
        assert id in ids <==> id in multiset(ids);
        assert id in a[..] <==> id in multiset(a[..]);
      }
      forall k | 0 <= k < a.Length ensures Rank(store, bookId, a[k]) == k {
        SortedRank(store, bookId, a[..], k);
      }
    }

    // -------------------------------------------------------------------------------------
    // Create

    /** save(reservation, listReturnLoanDate, numberOfCopies), with today's date and the current
        timestamp given. N is the number of reservations already waiting for the book. */
    method Save(request: ReservationRequest, listReturnLoanDate: seq<int>, numberOfCopies: int, today: int, now: int)
      returns (result: Result<Reservation>)
      requires Valid()
      modifies this
      ensures Valid() && sentNotices == old(sentNotices)
      ensures old(ReservationExists(request.customerId, request.bookId)) ==> result == Err(AlreadyReserved)
      ensures !old(ReservationExists(request.customerId, request.bookId)) &&
              listReturnLoanDate != [] && |listReturnLoanDate| <= |BookIds(old(store), request.bookId)|
              ==> result == Err(DateIndexOutOfRange)
      ensures result.Err? ==> store == old(store) && nextId == old(nextId)
      ensures result.Ok? <==>
              !old(ReservationExists(request.customerId, request.bookId)) &&
              (listReturnLoanDate == [] || |BookIds(old(store), request.bookId)| < |listReturnLoanDate|)
      ensures result.Ok? ==>
              var r := result.value;
              var n := |BookIds(old(store), request.bookId)|;
              r.id == old(nextId) && r.id !in old(store) && store == old(store)[r.id := r] &&
              nextId == old(nextId) + 1 &&
              r.bookId == request.bookId && r.customerId == request.customerId &&
              r.customerEmail == request.customerEmail && r.customerFirstname == request.customerFirstname &&
              r.customerLastname == request.customerLastname && r.bookTitle == request.bookTitle &&
              r.creationReservationDate == now &&
              r.position == n + 1 &&
              r.soonDisponibilityDate == (if listReturnLoanDate == [] then today else listReturnLoanDate[n]) &&
              r.endOfPriority == (if n == 0 || n <= numberOfCopies then Some(PriorityDeadline(today)) else None)
      ensures old(QueuesContiguous(store)) ==> QueuesContiguous(store)
    {
      var reservationInBdd := FindByCustomerIdAndBookId(request.customerId, request.bookId);
      if reservationInBdd.Ok? {
        return Err(AlreadyReserved);
      }
      var reservations := FindAllByBookId(request.bookId);
      var lastPosition := if |reservations| == 0 then 0 else |reservations|;
      var soon: int;
      if |listReturnLoanDate| == 0 {
        soon := today;
      } else {
        if lastPosition >= |listReturnLoanDate| {
          return Err(DateIndexOutOfRange);
        }
        soon := listReturnLoanDate[lastPosition];
      }
      var priority: Option<int> := None;
      if |reservations| == 0 || |reservations| <= numberOfCopies {
        priority := Some(PriorityDeadline(today));
      }
      var saved := Reservation(nextId, request.bookId, request.customerId, request.customerEmail,
                               request.customerFirstname, request.customerLastname, request.bookTitle,
                               now, lastPosition + 1, soon, priority);
      ghost var m := store;
      SaveKeepsUnique(m, nextId, saved);
      if QueuesContiguous(m) {
        SaveKeepsContiguous(m, nextId, saved);
      }
      store := store[nextId := saved];
      nextId := nextId + 1;
      result := Ok(saved);
    }

    // -------------------------------------------------------------------------------------
    // Capacity refresh

    /** updateResaBookId(bookId, numberOfCopies): every reservation of the book, in position order,
        gets the weekend-rule deadline and a mail; `numberOfCopies` is not used. */
    method UpdateResaBookId(bookId: int, numberOfCopies: int, today: int)
      requires Valid()
      modifies this
      ensures Valid() && nextId == old(nextId)
      ensures SameQueues(old(store), store)
      ensures forall id :: id in old(store) ==>
                store[id] == if old(store)[id].bookId == bookId
                             then old(store)[id].(endOfPriority := Some(PriorityDeadline(today)))
                             else old(store)[id]
      ensures |sentNotices| == |old(sentNotices)| + |BookIds(old(store), bookId)|
      ensures sentNotices[..|old(sentNotices)|] == old(sentNotices)
      ensures forall id :: id in BookIds(old(store), bookId) ==>
                Rank(old(store), bookId, id) < |BookIds(old(store), bookId)| &&
                sentNotices[|old(sentNotices)| + Rank(old(store), bookId, id)] == NoticeFor(store[id], PriorityDeadline(today))
      ensures old(QueuesContiguous(store)) ==> QueuesContiguous(store)
    {
      var reservations := FindAllByBookId(bookId);
      var a := SortedQueue(bookId, reservations);
      ghost var m := store;
      ghost var sent := sentNotices;
      NotifyInOrder(bookId, a, PriorityDeadline(today));
      NoticesForIndex(m, a[..], PriorityDeadline(today));
      forall j | j in BookIds(m, bookId)
        ensures Rank(m, bookId, j) < |BookIds(m, bookId)|
        ensures sentNotices[|sent| + Rank(m, bookId, j)] == NoticeFor(store[j], PriorityDeadline(today))
      {
        RankedOrderRanks(m, bookId, a[..], j);
      }
      forall c ensures Contiguous(m, c) <==> Contiguous(store, c) {
        SameQueuesAgree(m, store, c);
      }
    }

    /** The loop of updateResaBookId over the sorted list `a`: each listed reservation, in list
        order, gets `deadline` as its end of priority, and its holder gets a mail. */
    method NotifyInOrder(bookId: int, a: array<int>, deadline: int)
      requires Valid()
      requires RankedOrder(store, bookId, a[..])
      modifies this
      ensures Valid() && nextId == old(nextId)
      ensures SameQueues(old(store), store)
      ensures forall id :: id in old(store) ==>
                store[id] == if old(store)[id].bookId == bookId
                             then old(store)[id].(endOfPriority := Some(deadline))
                             else old(store)[id]
      ensures sentNotices == old(sentNotices) + NoticesFor(old(store), a[..], deadline)
    {
      ghost var m := store;
      ghost var order := a[..];
      var i := 0;
      while i < a.Length
        invariant 0 <= i <= a.Length
        invariant nextId == old(nextId)
        invariant DeadlinedBelow(store, m, bookId, deadline, i)
        invariant sentNotices == old(sentNotices) + NoticesFor(m, order[..i], deadline)
      {
        DeadlineStep(store, m, bookId, deadline, order, i);
        var id := a[i];
        store := store[id := store[id].(endOfPriority := Some(deadline))];
        assert NoticeFor(store[id], deadline) == NoticeFor(m[order[i]], deadline);
        assert order[..i + 1] == order[..i] + [order[i]];
        sentNotices := sentNotices + [NoticeFor(store[id], deadline)];
        i := i + 1;
      }
      assert order[..|order|] == order;
      DeadlineDone(store, m, bookId, deadline, order);
      SameHoldersKeepUnique(m, store);
    }

    // -------------------------------------------------------------------------------------
    // Date refresh

    /** The reservation with k others ahead of it gets `dates[k]`, in position order;
        `List.get` throws once k reaches the end of the list, after the earlier ones were set. */
    method AssignDatesByRank(bookId: int, ids: seq<int>, dates: seq<int>) returns (outcome: Outcome)
      requires Valid()
      requires forall k :: 0 <= k < |ids| ==> ids[k] in store
      requires Distinct(ids)
      requires forall id :: id in BookIds(store, bookId) <==> id in ids
      modifies this
      ensures Valid() && nextId == old(nextId) && sentNotices == old(sentNotices)
      ensures store == WithRankDates(old(store), bookId, dates)
      ensures outcome == if |dates| < |ids| then Fail(DateIndexOutOfRange) else Pass
    {
      var a := SortedQueue(bookId, ids);
      ghost var m := store;
      ghost var order := a[..];
      var i := 0;
      while i < a.Length
        invariant 0 <= i <= a.Length && i <= |dates|
        invariant a[..] == order
        invariant nextId == old(nextId) && sentNotices == old(sentNotices)
        invariant DatedBelow(store, m, bookId, dates, i)
      {
        if i == |dates| {
          break;
        }
        DatedStep(store, m, bookId, dates, order, i);
        store := store[a[i] := store[a[i]].(soonDisponibilityDate := dates[i])];
        i := i + 1;
      }
      DatedDone(store, m, bookId, dates, order, i);
      SameHoldersKeepUnique(m, store);
      outcome := if i < a.Length then Fail(DateIndexOutOfRange) else Pass;
    }

    /** updateDateResaBookId(bookId, listReturnLoanDate): nothing to do for an empty queue;
        otherwise the reservation with k others ahead of it gets `listReturnLoanDate[k]`. */
    method UpdateDateResaBookId(bookId: int, listReturnLoanDate: seq<int>) returns (outcome: Outcome)
      requires Valid()
      modifies this
      ensures Valid() && nextId == old(nextId) && sentNotices == old(sentNotices)
      ensures store == WithRankDates(old(store), bookId, listReturnLoanDate)
      ensures outcome == if |listReturnLoanDate| < |BookIds(old(store), bookId)| then Fail(DateIndexOutOfRange) else Pass
      ensures SameQueues(old(store), store)
      ensures old(QueuesContiguous(store)) ==> QueuesContiguous(store)
    {
      var reservations := FindAllByBookId(bookId);
      ghost var m := store;
      if |reservations| == 0 {
        DateRefreshOtherBooks(m, bookId, listReturnLoanDate);
        return Pass;
      }
      outcome := AssignDatesByRank(bookId, reservations, listReturnLoanDate);
      forall c ensures Contiguous(m, c) <==> Contiguous(store, c) {
        SameQueuesAgree(m, store, c);
      }
    }

    // -------------------------------------------------------------------------------------
    // Delete

    /** The first loop of delete: each listed reservation behind `position` moves up one place. */
    method MoveUpBehind(bookId: int, position: int, ids: seq<int>)
      requires Valid()
      requires forall k :: 0 <= k < |ids| ==> ids[k] in store
      requires Distinct(ids)
      requires forall id :: id in BookIds(store, bookId) <==> id in ids
      modifies this
      ensures Valid() && nextId == old(nextId) && sentNotices == old(sentNotices)
      ensures store == ClosedGap(old(store), bookId, position)
      ensures forall id :: id in BookIds(store, bookId) <==> id in ids
    {
      ghost var m := store;
      var i := 0;
      while i < |ids|
        invariant 0 <= i <= |ids|
        invariant nextId == old(nextId) && sentNotices == old(sentNotices)
        invariant store.Keys == m.Keys
        invariant forall id :: id in m ==>
                    store[id] == if id in ids[..i] then Closed(m[id], bookId, position) else m[id]
      {
        var id := ids[i];
        assert id !in ids[..i];
        assert id in BookIds(m, bookId);
        if store[id].position > position {
          store := store[id := store[id].(position := store[id].position - 1)];
        }
        assert ids[..i + 1] == ids[..i] + [id];
        i := i + 1;
      }
      forall id | id in m ensures store[id] == Closed(m[id], bookId, position) {
        if m[id].bookId == bookId {
          assert id in BookIds(m, bookId);
          assert ids[..|ids|] == ids;
        }
      }
      assert store == ClosedGap(m, bookId, position);
      assert SameHolders(m, store);
      SameHoldersKeepUnique(m, store);
      forall id ensures id in BookIds(store, bookId) <==> id in BookIds(m, bookId) {
        if id in store { assert store[id].bookId == m[id].bookId; }
      }
    }

    /** delete(reservationId, listReturnLoanDate): NotFound for an unknown id; otherwise the record
        is removed and, when reservations remain and the date list is not empty, the ones behind it
        move up one place and all take their dates by their new rank. */
    method Delete(reservationId: int, listReturnLoanDate: seq<int>) returns (outcome: Outcome)
      requires Valid()
      modifies this
      ensures Valid() && nextId == old(nextId) && sentNotices == old(sentNotices)
      ensures reservationId !in old(store) ==> outcome == Fail(NotFound) && store == old(store)
      ensures reservationId in old(store) ==> store == Deleted(old(store), reservationId, listReturnLoanDate)
      ensures reservationId in old(store) ==>
                outcome == if Reindexes(old(store), reservationId, listReturnLoanDate) &&
                              |listReturnLoanDate| < |BookIds(old(store) - {reservationId}, old(store)[reservationId].bookId)|
                           then Fail(DateIndexOutOfRange) else Pass
      ensures old(QueuesContiguous(store)) && listReturnLoanDate != [] ==> QueuesContiguous(store)
    {
      if reservationId !in store {
        return Fail(NotFound);
      }
      var reservationToDelete := store[reservationId];
      var b, p := reservationToDelete.bookId, reservationToDelete.position;
      ghost var m := store;
      store := store - {reservationId};
      var reservations := FindAllByBookId(b);
      outcome := Pass;
      if |reservations| != 0 && |listReturnLoanDate| != 0 {
        MoveUpBehind(b, p, reservations);
        outcome := AssignDatesByRank(b, reservations, listReturnLoanDate);
      }
      if QueuesContiguous(m) && listReturnLoanDate != [] {
        DeleteKeepsContiguous(m, reservationId, listReturnLoanDate);
      }
    }
  }
}
