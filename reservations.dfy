/** The records of the reservation service: a reservation, the request that creates one,
    the mail notice sent when a deadline is set, and the service's error results. */
module Reservations {

  datatype Option<T> = None | Some(value: T)

  /** The exceptions the service lets escape: ReservationNotFoundException,
      ReservationAlreadyExistException, and the IndexOutOfBoundsException thrown by
      `List.get` on a return-date list that is too short. */
  datatype Error = NotFound | AlreadyReserved | DateIndexOutOfRange

  datatype Result<T> = Ok(value: T) | Err(error: Error)

  /** The outcome of an operation that returns nothing in the service (`void`). */
  datatype Outcome = Pass | Fail(error: Error)

  /** One customer's place in one book's waitlist. Dates are epoch days;
      `creationReservationDate` is an opaque timestamp. */
  datatype Reservation = Reservation(
    id: int,
    bookId: int,
    customerId: int,
    customerEmail: string,
    customerFirstname: string,
    customerLastname: string,
    bookTitle: string,
    creationReservationDate: int,
    position: int,
    soonDisponibilityDate: int,
    endOfPriority: Option<int>)

  /** The fields of the incoming reservation that the service reads when it creates one. */
  datatype ReservationRequest = ReservationRequest(
    bookId: int,
    customerId: int,
    customerEmail: string,
    customerFirstname: string,
    customerLastname: string,
    bookTitle: string)

  /** One pre-configured mail: recipient, names, reservation date, title and deadline. */
  datatype Notice = Notice(
    to: string,
    firstname: string,
    lastname: string,
    reservedOn: int,
    bookTitle: string,
    deadline: int)

  /** The repository's rows, by id. */
  type Store = map<int, Reservation>

  /** The mail sent to the holder of `r` when its priority deadline is `deadline`. */
  function NoticeFor(r: Reservation, deadline: int): Notice
  {
    Notice(r.customerEmail, r.customerFirstname, r.customerLastname,
           r.creationReservationDate, r.bookTitle, deadline)
  }

  /** The mails for the reservations `ids`, in that order. */
  function NoticesFor(m: Store, ids: seq<int>, deadline: int): seq<Notice>
    requires forall k :: 0 <= k < |ids| ==> ids[k] in m
  {
    if ids == [] then [] else NoticesFor(m, ids[..|ids| - 1], deadline) + [NoticeFor(m[ids[|ids| - 1]], deadline)]
  }

  /** One mail per reservation: the k-th mail goes to the holder of `ids[k]`. */
  lemma {:induction false} NoticesForIndex(m: Store, ids: seq<int>, deadline: int)
    requires forall k :: 0 <= k < |ids| ==> ids[k] in m
    ensures |NoticesFor(m, ids, deadline)| == |ids|
    ensures forall k :: 0 <= k < |ids| ==> NoticesFor(m, ids, deadline)[k] == NoticeFor(m[ids[k]], deadline)
  {
    if ids != [] {
      NoticesForIndex(m, ids[..|ids| - 1], deadline);
    }
  }
}
