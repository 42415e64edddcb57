# Reservation waitlist engine

A Dafny model of `ReservationServiceImpl`, the per-book reservation waitlist of the library's
reservation service. A customer reserves a book that has no copy on the shelf. The reservation
then gets a place (`position`) in that book's queue, an expected availability date
(`soonDisponibilityDate`) and, once the customer can claim a copy, a priority deadline
(`endOfPriority`). The model covers:

- the lookups `findById`, `findByCustomerIdAndBookId` and `checkIfReservationExistForCustomerIdAndBookId`;
- `save`, which creates a reservation;
- `updateResaBookId`, the capacity refresh, which sets deadlines and sends mails;
- `updateDateResaBookId`, the date refresh;
- `delete`, which removes one reservation, renumbers the queue and re-dates it;
- the weekend rule for deadlines: four days after a Saturday or a Sunday, two days after any other day.

Files:

- `reservations.dfy` (module `Reservations`): the records (reservation, creation request, mail
  notice) and the errors the service raises. `Error.DateIndexOutOfRange` stands for the
  `IndexOutOfBoundsException` thrown by `List.get`.
- `calendar.dfy` (module `Calendar`): epoch-day dates, the day of the week as `LocalDate`
  computes it, and the weekend rule.
- `ordering.dfy` (module `Ordering`): queue order and rank, and the in-place sort by position.
  The sort runs on an array of ids; an id stands for the object reference the repository hands out.
- `queue.dfy` (module `Queue`): the waitlist invariants. Contiguity means a book's positions are
  exactly 1..N. Unique pairs means at most one reservation per (customer, book). The module also
  states, as functions on the store, what each queue-changing operation leaves behind, with the
  lemmas about those functions.
- `service.dfy` (module `Service`): class `ReservationService`. It holds the repository as a
  map from id to record, the id counter, and the log of mails sent. Its methods follow the
  Java code loop by loop; each one's `ensures` ties the new store to the functions of `Queue`.

The repository returns the stored records themselves. A setter called on a record that
`findAllByBookId` returned therefore changes the store at once. This is how the model reads
`updateResaBookId` and `updateDateResaBookId`, which never call `save`, and the state that
`delete` leaves when `List.get` throws part-way through its date loop. The repository is
assumed to keep its rows in id order. Java's sort by position is stable, so on that list it
sorts by position with ties broken by id: the order `Ordering.Ahead` defines.

The model follows what the code does, including where it differs from what a waitlist evidently needs:

- `updateResaBookId` gives every reservation of the book a deadline and a mail. It never reads
  `numberOfCopies`, although only the first `numberOfCopies` reservations in queue order can
  claim a copy.
- A date list shorter than the queue makes the loop of `updateDateResaBookId` (and of `delete`)
  throw after the earlier ranks were already changed, instead of rejecting the list with
  nothing changed.
- `delete` with an empty date list only removes the record. The renumbering is skipped, so the
  queue keeps a gap (see Findings).
- `delete` is not atomic: the removal and the renumbering stay in place when the date loop throws.
- A new reservation gets a deadline when the queue held N reservations and `N == 0 || N <= numberOfCopies`.

## Model

| member | source | states |
|---|---|---|
| Calendar.PriorityDeadline | src/main/java/org/mickael/librarymsreservation/service/impl/ReservationServiceImpl.java:74-79 | the deadline is between two and four days after today |
| Calendar.WeekendRuleByDay | src/main/java/org/mickael/librarymsreservation/service/impl/ReservationServiceImpl.java:74-79 | for each of the seven weekdays: today+4 on Saturday and Sunday, today+2 otherwise, and the weekday the deadline falls on (never Monday or Tuesday) |
| Calendar.WeekendRuleExamples | src/main/java/org/mickael/librarymsreservation/service/impl/ReservationServiceImpl.java:74-79 | epoch day 0 is a Thursday; Saturday 2026-10-17 gives 2026-10-21; Tuesday 2026-10-20 gives 2026-10-22 |
| Service.ReservationService.FindById | src/main/java/org/mickael/librarymsreservation/service/impl/ReservationServiceImpl.java:39-46 | Ok with the stored record exactly when the id is stored, NotFound otherwise |
| Service.ReservationService.FindByCustomerIdAndBookId | src/main/java/org/mickael/librarymsreservation/service/impl/ReservationServiceImpl.java:199-206 | Ok with a stored record of that customer and book, or NotFound exactly when no stored record matches the pair |
| Service.ReservationService.ReservationExists | src/main/java/org/mickael/librarymsreservation/service/impl/ReservationServiceImpl.java:194-197 | the existence query answers true exactly when the lookup by the same pair succeeds |
| Service.ReservationService.FindAllByBookId | src/main/java/org/mickael/librarymsreservation/repository/ReservationRepository.java:14 | lists exactly the book's stored reservations, each once, in increasing id order; the list length is the queue length N |
| Ordering.SortByPosition | src/main/java/org/mickael/librarymsreservation/service/impl/ReservationServiceImpl.java:112 | the list ends up in queue order (position, then id) and is a permutation of the list it started from |
| Ordering.SinkInto | src/main/java/org/mickael/librarymsreservation/service/impl/ReservationServiceImpl.java:112 | one insertion step: a sorted prefix of length i becomes one of length i+1, with the same multiset of ids |
| Ordering.SortedRank | src/main/java/org/mickael/librarymsreservation/service/impl/ReservationServiceImpl.java:141-144 | in a sorted list of exactly the book's reservations, the one at index k has exactly k reservations ahead of it |
| Service.ReservationService.SortedQueue | src/main/java/org/mickael/librarymsreservation/service/impl/ReservationServiceImpl.java:112 | the sorted copy lists exactly the book's reservations, and index k holds the one of rank k |
| Queue.ContiguousRank | src/main/java/org/mickael/librarymsreservation/service/impl/ReservationServiceImpl.java:141-144 | in a queue with positions 1..N, a reservation's rank is its position minus one |
| Queue.SameQueuesAgree | src/main/java/org/mickael/librarymsreservation/service/impl/ReservationServiceImpl.java:114-121 | two stores with the same ids, books and positions agree on each queue's members, on contiguity and on every rank |
| Service.ReservationService.Save | src/main/java/org/mickael/librarymsreservation/service/impl/ReservationServiceImpl.java:48-101 | AlreadyReserved for a pair that exists; DateIndexOutOfRange for a non-empty date list of length at most N; both leave the store unchanged. The save succeeds exactly when the pair is new and the date list is empty or longer than N, and then adds exactly one new record under a fresh id: the request's customer, book and contact fields, the given timestamp, position N+1, the expected date (today for an empty list, else the list at index N), and the weekend-rule deadline when N == 0 or N <= numberOfCopies, none otherwise. Contiguity and unique pairs are kept |
| Queue.SaveKeepsContiguous | src/main/java/org/mickael/librarymsreservation/service/impl/ReservationServiceImpl.java:59-88 | a new record at position N+1 of its queue keeps every queue's positions 1..N |
| Queue.SaveKeepsUnique | src/main/java/org/mickael/librarymsreservation/service/impl/ReservationServiceImpl.java:52-56 | adding a record whose pair has none keeps pairs unique |
| Service.ReservationService.UpdateResaBookId | src/main/java/org/mickael/librarymsreservation/service/impl/ReservationServiceImpl.java:105-133 | every reservation of the book, whatever numberOfCopies is, gets the weekend-rule deadline and nothing else changes on it; other books' records are untouched; no position changes; one mail is appended per reservation, and the reservation of rank k gets the k-th new mail, which carries its contact data, creation date, title and deadline; contiguity is kept |
| Service.ReservationService.NotifyInOrder | src/main/java/org/mickael/librarymsreservation/service/impl/ReservationServiceImpl.java:114-131 | walking the sorted list sets the deadline on exactly the listed book's records and appends their mails in list order |
| Reservations.NoticesForIndex | src/main/java/org/mickael/librarymsreservation/service/impl/ReservationServiceImpl.java:124-130 | mailing a list of reservations sends one mail per reservation, the k-th going to the holder of the k-th |
| Queue.DeadlineDone | src/main/java/org/mickael/librarymsreservation/service/impl/ReservationServiceImpl.java:114-121 | once every rank has been visited, exactly the book's records carry the deadline, with the same ids, holders and positions |
| Service.ReservationService.AssignDatesByRank | src/main/java/org/mickael/librarymsreservation/service/impl/ReservationServiceImpl.java:141-145 | the reservation of rank k gets dates[k] while k < the list length; DateIndexOutOfRange exactly when the list is shorter than the queue, with the earlier ranks already re-dated |
| Queue.DatedDone | src/main/java/org/mickael/librarymsreservation/service/impl/ReservationServiceImpl.java:143-145 | stopping at the end of the queue or of the date list leaves the store re-dated by rank, with the same ids, holders and positions |
| Service.ReservationService.UpdateDateResaBookId | src/main/java/org/mickael/librarymsreservation/service/impl/ReservationServiceImpl.java:135-146 | the store becomes the re-dating by rank; DateIndexOutOfRange exactly when the list is shorter than the queue; nothing changes for an empty queue; positions and contiguity are kept |
| Queue.DateRefreshByPosition | src/main/java/org/mickael/librarymsreservation/service/impl/ReservationServiceImpl.java:141-145 | in a queue with positions 1..N, the reservation at position p gets dates[p-1], or keeps its date when the list is shorter than p; positions are unchanged |
| Queue.DateRefreshOtherBooks | src/main/java/org/mickael/librarymsreservation/service/impl/ReservationServiceImpl.java:137-140 | the date refresh leaves other books' records as they were, and changes nothing when the book has no reservations |
| Service.ReservationService.MoveUpBehind | src/main/java/org/mickael/librarymsreservation/service/impl/ReservationServiceImpl.java:169-173 | the book's reservations behind the deleted position move up one place; every other record is unchanged |
| Service.ReservationService.Delete | src/main/java/org/mickael/librarymsreservation/service/impl/ReservationServiceImpl.java:148-181 | NotFound for an absent id, store unchanged; otherwise the store becomes the deleted-store function: record removed, and, when reservations remain and the date list is not empty, the queue closed up and re-dated by the new rank. DateIndexOutOfRange exactly when that re-dating runs and the list is shorter than the remaining queue; contiguity is kept when the date list is not empty |
| Queue.DeleteRemovesOne | src/main/java/org/mickael/librarymsreservation/service/impl/ReservationServiceImpl.java:158 | delete removes exactly the one id, and no remaining record changes id, holder, book, creation date or deadline |
| Queue.DeleteClosesGap | src/main/java/org/mickael/librarymsreservation/service/impl/ReservationServiceImpl.java:166-173 | with a non-empty date list, each of the book's reservations behind the deleted one moves up by one, every other keeps its position, and other books' records are untouched |
| Queue.ClosingGapKeepsContiguous | src/main/java/org/mickael/librarymsreservation/service/impl/ReservationServiceImpl.java:169-173 | removing position p from a queue 1..N and moving the ones behind it up leaves 1..N-1; other queues keep their positions |
| Queue.DeleteKeepsContiguous | src/main/java/org/mickael/librarymsreservation/service/impl/ReservationServiceImpl.java:163-179 | with a non-empty date list, delete keeps every queue's positions 1..N |
| Queue.DeleteKeepsOrder | src/main/java/org/mickael/librarymsreservation/service/impl/ReservationServiceImpl.java:169-174 | in a contiguous queue, delete keeps the relative order of any two remaining reservations |
| Queue.DeleteDatesByNewPosition | src/main/java/org/mickael/librarymsreservation/service/impl/ReservationServiceImpl.java:174-178 | after a delete that renumbers a contiguous queue, the reservation now at position p has dates[p-1], or its old date when the list is shorter than p |
| Queue.DeleteWithoutDatesLeavesGap | src/main/java/org/mickael/librarymsreservation/service/impl/ReservationServiceImpl.java:163 | deleting position 2 of a queue 1, 2, 3 with an empty date list leaves positions 1 and 3: the queue is not contiguous, and the next save (position N+1) repeats position 3 |
| Queue.DeleteClosingGapKeepsContiguous | src/main/java/org/mickael/librarymsreservation/service/impl/ReservationServiceImpl.java:163-173 | the corrected delete, which closes the gap whatever the date list, keeps every queue's positions 1..N |
| Queue.DeleteClosingGapAgrees | src/main/java/org/mickael/librarymsreservation/service/impl/ReservationServiceImpl.java:163-179 | with a non-empty date list, the corrected delete and the code's delete give the same store |

## Left out

- Mail transport and formatting (`sendPreConfiguredMail`, `sendSimpleMessage`, `formatDateToMail`, `formatDateTimeToMail`): a mail is an entry in the `sentNotices` log with its raw fields; the template text, the date pattern and `JavaMailSender` are outside the model.
- The clock: `LocalDate.now()` and `LocalDateTime.now()` become the parameters `today` (an epoch day) and `now` (an opaque timestamp). The Java code reads the clock afresh at each use, so a call that spans midnight can mix two days; the model uses one `today` per call.
- `findAll`, `findAllByCustomerId` and the service's own `findAllByBookId` are pass-throughs to the repository with no logic of their own; the repository query `findAllByBookId` is modelled, as `FindAllByBookId`.
- Spring Data behaviour beyond an in-memory map: generated ids are a counter starting at 1, rows come back in id order, and `saveAll` adds nothing because the records were already changed in place. `findByCustomerIdAndBookId` throws when a pair matches several rows; that cannot happen in the model, whose invariant keeps pairs unique.
- Transactions, locking, `LockTimeout` and atomic batches: the code has none; every operation runs alone on the store.
- `ReservationRestController`, the Feign proxies, `FeignConfig` and the `ReservationServiceContract` interface: HTTP routing, network clients, configuration and signatures. Copy counts and return-date lists are plain inputs. The model follows the three-argument `save` of the implementation.
- Java `Integer` width and `null`: integers are unbounded (positions and counts stay far below 2^31), and null arguments are not modelled.
- `Service.ReservationService.UpdateResaBookId`: the mails are specified against the queue ranks; that ranks equal position minus one holds when the queue is contiguous (`Queue.ContiguousRank`) and is not restated in the method's contract.

## Findings

| source | as written | input that shows it | evidently intended | confidence | as-written member | corrected member |
|---|---|---|---|---|---|---|
| src/main/java/org/mickael/librarymsreservation/service/impl/ReservationServiceImpl.java:163 | the renumbering of the queue and the re-dating share one guard, so an empty date list skips the renumbering as well | book 7 with reservations at positions 1, 2, 3; delete the one at position 2 with an empty date list: positions 1 and 3 remain, and the next save for book 7 is given position 3 again | close the gap whenever the record is removed; only the re-dating needs a non-empty date list | medium; not executed | Queue.DeleteWithoutDatesLeavesGap | Queue.DeleteClosingGapKeepsContiguous |

`Service.ReservationService.Delete` models the code as written; its result is
`Queue.Deleted`. The corrected behaviour is `Queue.DeletedClosingGap`, which keeps every queue
contiguous for every date list (`Queue.DeleteClosingGapKeepsContiguous`). It coincides with the
code whenever the date list is not empty (`Queue.DeleteClosingGapAgrees`). Every contiguity
claim the model makes about delete therefore holds for the corrected definition without condition.
