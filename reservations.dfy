/**
 * What a committed `ReservationSerializer.create` leaves behind: one new
 * reservation stamped with the requester and the time of the request, and
 * after it one ticket per requested seat, in request order. The loop that
 * builds this state ticket by ticket is `Store.CreateReservation`; this
 * module states the end state and proves what it promises.
 */
module Reservations {
  import opened Wrappers
  import opened Schema
  import opened Tickets

  /** `Reservation.objects.create(user=...)`: `created_at` is set once, to `now`. */
  function Opened(db: Db, user: Id, now: Instant): Db {
    db.(reservations := db.reservations[db.next.reservation := Reservation(now, user)],
        next := db.next.(reservation := db.next.reservation + 1))
  }

  /** The state once the reservation and the tickets for `requests` are stored. */
  function Reserved(db: Db, user: Id, now: Instant, requests: seq<TicketAttrs>): Db {
    var open := Opened(db, user, now);
    open.(tickets := db.tickets + Issued(requests, db.next.reservation, db.next.ticket),
            next := open.next.(ticket := db.next.ticket + |requests|))
  }

  /** The keys of the tickets that belong to a reservation. */
  function TicketsOf(tickets: map<Id, Ticket>, reservation: Id): set<Id> {
    set k | k in tickets && tickets[k].reservation == reservation
  }

  lemma OpenedKeepsConsistent(db: Db, user: Id, now: Instant)
    requires Consistent(db)
    ensures Consistent(Opened(db, user, now))
  {
    var r := Opened(db, user, now);
    assert forall p :: HallOf(r, p) == HallOf(db, p);
  }

  /** Before any ticket is stored, the reservation alone is opened. */
  lemma ReservedNothing(db: Db, user: Id, now: Instant)
    ensures Reserved(db, user, now, []) == Opened(db, user, now)
  {
    assert db.tickets + map[] == db.tickets;
  }

  /**
   * Storing the next request with `SaveTicket` extends the state for the
   * earlier requests to the state for one request more.
   */
  lemma ReservedStep(db: Db, user: Id, now: Instant, requests: seq<TicketAttrs>, i: nat)
    requires KeysBelow(db.tickets, db.next.ticket)
    requires i < |requests|
    ensures Reserved(db, user, now, requests[..i + 1])
              == WithTicket(Reserved(db, user, now, requests[..i]), TicketFor(requests[i], db.next.reservation))
  {
    var t := TicketFor(requests[i], db.next.reservation);
    var earlier := Issued(requests[..i], db.next.reservation, db.next.ticket);
    assert requests[..i + 1][..i] == requests[..i];
    IssuedLast(requests[..i + 1], db.next.reservation, db.next.ticket);
    MergeUpdate(db.tickets, earlier, db.next.ticket + i, t);
  }

  /** A seat is taken in the union of two tables with disjoint keys iff it is taken in one of them. */
  lemma TakenMerge(a: map<Id, Ticket>, b: map<Id, Ticket>, attrs: TicketAttrs)
    requires a.Keys !! b.Keys
    ensures Taken(a + b, attrs) <==> Taken(a, attrs) || Taken(b, attrs)
  {
    if Taken(a, attrs) {
      var k :| k in a && a[k].Attrs() == attrs;
      assert (a + b)[k] == a[k];
    }
    if Taken(b, attrs) {
      var k :| k in b && b[k].Attrs() == attrs;
      assert (a + b)[k] == b[k];
    }
  }

  /** The tickets of a batch claim exactly the requested seats. */
  lemma TakenByIssued(prefix: seq<TicketAttrs>, reservation: Id, first: Id, attrs: TicketAttrs)
    ensures Taken(Issued(prefix, reservation, first), attrs) <==> attrs in prefix
  {
    var issued := Issued(prefix, reservation, first);
    IssuedInRequestOrder(prefix, reservation, first);
    if Taken(issued, attrs) {
      var k :| k in issued && issued[k].Attrs() == attrs;
      var i := k - first;
      assert issued[first + i].Attrs() == prefix[i];
    }
    if attrs in prefix {
      var i :| 0 <= i < |prefix| && prefix[i] == attrs;
      assert issued[first + i].Attrs() == attrs;
    }
  }

  /** A seat is taken after a prefix of the batch iff it was taken before or the prefix requests it. */
  lemma TakenDuringBatch(db: Db, user: Id, now: Instant, prefix: seq<TicketAttrs>, attrs: TicketAttrs)
    requires KeysBelow(db.tickets, db.next.ticket)
    ensures Taken(Reserved(db, user, now, prefix).tickets, attrs) <==> Taken(db.tickets, attrs) || attrs in prefix
  {
    var issued := Issued(prefix, db.next.reservation, db.next.ticket);
    IssuedInRequestOrder(prefix, db.next.reservation, db.next.ticket);
    assert db.tickets.Keys !! issued.Keys;
    TakenMerge(db.tickets, issued, attrs);
    TakenByIssued(prefix, db.next.reservation, db.next.ticket, attrs);
  }

  /** A request can be stored mid-batch iff it could be stored before and the batch has not claimed its seat. */
  lemma PlaceableDuringBatch(db: Db, user: Id, now: Instant, prefix: seq<TicketAttrs>, attrs: TicketAttrs)
    requires KeysBelow(db.tickets, db.next.ticket)
    ensures Placeable(Reserved(db, user, now, prefix), attrs) <==> Placeable(db, attrs) && attrs !in prefix
  {
    assert HallOf(Reserved(db, user, now, prefix), attrs.performance) == HallOf(db, attrs.performance);
    TakenDuringBatch(db, user, now, prefix, attrs);
  }

  /** A batch stays admissible one request longer iff that request is placeable and new to the batch. */
  lemma AdmissibleExtend(db: Db, requests: seq<TicketAttrs>, i: nat)
    requires i < |requests|
    ensures Admissible(db, requests[..i + 1]) <==>
              (Admissible(db, requests[..i]) && Placeable(db, requests[i]) && requests[i] !in requests[..i])
  {
    var longer := requests[..i + 1];
    assert longer[..i] == requests[..i] && longer[i] == requests[i];
    if Admissible(db, requests[..i]) && Placeable(db, requests[i]) && requests[i] !in requests[..i] {
      forall a, b | 0 <= a < b < |longer|
        ensures longer[a] != longer[b]
      {
        if b < i {
          assert longer[a] == requests[..i][a] && longer[b] == requests[..i][b];
        } else {
          assert longer[a] == requests[..i][a];
        }
      }
    }
    if Admissible(db, longer) {
      forall a | 0 <= a < i
        ensures requests[..i][a] != requests[i]
      {
        assert requests[..i][a] == longer[a];
      }
    }
  }

  /**
   * Induction over the batch, one `SaveTicket` per request: an admissible
   * batch commits to a state that satisfies every constraint again.
   */
  lemma {:induction false} ReservedKeepsConsistent(db: Db, user: Id, now: Instant, requests: seq<TicketAttrs>)
    requires Consistent(db)
    requires Admissible(db, requests)
    ensures Consistent(Reserved(db, user, now, requests))
    decreases |requests|
  {
    if requests == [] {
      ReservedNothing(db, user, now);
      OpenedKeepsConsistent(db, user, now);
    } else {
      var n := |requests| - 1;
      assert requests[..n + 1] == requests;
      AdmissiblePrefix(db, requests, n);
      ReservedKeepsConsistent(db, user, now, requests[..n]);
      AdmissibleExtend(db, requests, n);
      var before := Reserved(db, user, now, requests[..n]);
      PlaceableDuringBatch(db, user, now, requests[..n], requests[n]);
      ReservedStep(db, user, now, requests, n);
      assert SaveTicket(before, requests[n], db.next.reservation).Success?;
    }
  }

  /**
   * The committed state holds exactly one new reservation, owned by the
   * requester and stamped `now`; the older reservations and every table
   * the batch does not write are unchanged.
   */
  lemma ReservedReservation(db: Db, user: Id, now: Instant, requests: seq<TicketAttrs>)
    requires KeysIssued(db)
    ensures var r := Reserved(db, user, now, requests);
      var res := db.next.reservation;
      && res !in db.reservations
      && r.reservations == db.reservations[res := Reservation(now, user)]
      && r.(reservations := db.reservations, tickets := db.tickets, next := db.next) == db
  {
  }

  /**
   * The committed state keeps every old ticket and adds exactly
   * `|requests|` new ones: request `i` under key `next + i`, in the new
   * reservation.
   */
  lemma ReservedTickets(db: Db, user: Id, now: Instant, requests: seq<TicketAttrs>)
    requires KeysIssued(db)
    ensures var r := Reserved(db, user, now, requests);
      && (forall k :: k in db.tickets ==> k in r.tickets && r.tickets[k] == db.tickets[k])
      && |r.tickets.Keys - db.tickets.Keys| == |requests|
      && (forall k :: k in r.tickets && k !in db.tickets <==> db.next.ticket <= k < db.next.ticket + |requests|)
      && (forall i :: 0 <= i < |requests| ==>
            r.tickets[db.next.ticket + i] == TicketFor(requests[i], db.next.reservation))
  {
    var r := Reserved(db, user, now, requests);
    var issued := Issued(requests, db.next.reservation, db.next.ticket);
    IssuedInRequestOrder(requests, db.next.reservation, db.next.ticket);
    assert forall k :: k in db.tickets ==> k !in issued;
    assert r.tickets.Keys - db.tickets.Keys == issued.Keys;
  }

  /**
   * The new reservation holds exactly the batch's tickets; with an empty
   * batch it is a reservation with no tickets.
   */
  lemma ReservedTicketsOfNew(db: Db, user: Id, now: Instant, requests: seq<TicketAttrs>)
    requires Consistent(db)
    ensures var r := Reserved(db, user, now, requests);
      && |TicketsOf(r.tickets, db.next.reservation)| == |requests|
      && (requests == [] ==> TicketsOf(r.tickets, db.next.reservation) == {})
  {
    var r := Reserved(db, user, now, requests);
    var issued := Issued(requests, db.next.reservation, db.next.ticket);
    IssuedInRequestOrder(requests, db.next.reservation, db.next.ticket);
    forall k | k in db.tickets
      ensures db.tickets[k].reservation != db.next.reservation
    {
      assert db.tickets[k].reservation in db.reservations;
    }
    forall k | k in issued
      ensures r.tickets[k].reservation == db.next.reservation
    {
      assert db.next.ticket <= k < db.next.ticket + |requests|;
      var i := k - db.next.ticket;
      assert issued[db.next.ticket + i].Attrs() == requests[i];
    }
    assert TicketsOf(r.tickets, db.next.reservation) == issued.Keys;
  }

  /** Committing a batch lowers each performance's availability by its number of requests for it. */
  lemma ReservedAvailability(db: Db, user: Id, now: Instant, requests: seq<TicketAttrs>, performance: Id)
    requires KeysIssued(db)
    requires HallOf(db, performance).Some?
    ensures var r := Reserved(db, user, now, requests);
      && HallOf(r, performance) == HallOf(db, performance)
      && TicketsAvailable(r, performance) == TicketsAvailable(db, performance) - CountFor(requests, performance)
  {
    IssuedCount(db.tickets, requests, db.next.reservation, db.next.ticket, performance);
  }

  /** A batch that asks for the same seat twice is never admissible, so it never commits. */
  lemma DuplicateNotAdmissible(db: Db, requests: seq<TicketAttrs>, i: nat, j: nat)
    requires i < j < |requests| && requests[i] == requests[j]
    ensures !Admissible(db, requests)
  {
  }

  /**
   * How a reservation request is refused. `InvalidTickets` is `is_valid`
   * failing before `create` runs (the response lists each rejected ticket);
   * `SeatClaimedTwice` is the `unique_together` constraint stopping the
   * INSERT of a request that repeats an earlier one of the same batch, which
   * rolls the transaction back.
   */
  datatype ReservationError =
    | InvalidTickets(errors: seq<BatchError>)
    | SeatClaimedTwice(index: nat, attrs: TicketAttrs)

  /**
   * The refusal of a batch: every ticket that fails validation against the
   * tables before the request, or, when all pass, the first request whose
   * seat an earlier request of the batch already claimed.
   */
  ghost predicate Rejected(db: Db, requests: seq<TicketAttrs>, e: ReservationError) {
    match e
    case InvalidTickets(errors) => errors != [] && errors == ValidateTickets(db, requests)
    case SeatClaimedTwice(i, attrs) =>
      && ValidateTickets(db, requests) == []
      && i < |requests|
      && attrs == requests[i]
      && Admissible(db, requests[..i])
      && attrs in requests[..i]
  }

  /**
   * A refused batch is one that could not commit, and the refusal is a
   * function of the request: validation errors exactly when some ticket is
   * invalid or already sold, and only one refusal fits a given batch.
   */
  lemma RejectionDetermined(db: Db, requests: seq<TicketAttrs>, e: ReservationError, e': ReservationError)
    requires Rejected(db, requests, e) && Rejected(db, requests, e')
    ensures !Admissible(db, requests)
    ensures e.InvalidTickets? <==> exists i :: 0 <= i < |requests| && !Placeable(db, requests[i])
    ensures e == e'
  {
    if e.SeatClaimedTwice? {
      var k :| 0 <= k < e.index && requests[..e.index][k] == requests[e.index];
      DuplicateNotAdmissible(db, requests, k, e.index);
    }
  }

  /**
   * In a 20 x 20 hall, a batch of a free valid seat followed by row 100 is
   * refused before anything is stored, and the refusal names the second
   * request and its row.
   */
  lemma OutOfRangeBatchRefused(db: Db, performance: Id, e: ReservationError)
    requires Consistent(db)
    requires HallOf(db, performance) == Some(TheatreHall("Main Hall", 20, 20))
    requires !Taken(db.tickets, TicketAttrs(5, 10, performance))
    ensures var requests := [TicketAttrs(5, 10, performance), TicketAttrs(100, 100, performance)];
      && !Admissible(db, requests)
      && Rejected(db, requests, InvalidTickets([BatchError(1, RowOutOfRange(100, 1, 20))]))
      && (Rejected(db, requests, e) ==> e == InvalidTickets([BatchError(1, RowOutOfRange(100, 1, 20))]))
  {
    var requests := [TicketAttrs(5, 10, performance), TicketAttrs(100, 100, performance)];
    assert !Placeable(db, requests[1]);
    assert ValidateTickets(db, requests[..1]) == [] by {
      assert requests[..1][..0] == [];
    }
    SoldSeatsInRange(db, requests[1]);
    assert CheckTicket(db, requests[1]) == Some(RowOutOfRange(100, 1, 20));
    assert ValidateTickets(db, requests) == ValidateTickets(db, requests[..1]) + [BatchError(1, RowOutOfRange(100, 1, 20))];
  }

  /**
   * In a 10 x 20 hall, [(1, 1), (1, 1), (11, 1)] is refused by validation
   * for its third request alone: the repeated seat is never reached,
   * because no INSERT runs once a ticket is invalid.
   */
  lemma ValidationBeforeInsert(db: Db, performance: Id, e: ReservationError)
    requires Consistent(db)
    requires HallOf(db, performance) == Some(TheatreHall("Main Hall", 10, 20))
    requires !Taken(db.tickets, TicketAttrs(1, 1, performance))
    ensures var requests := [TicketAttrs(1, 1, performance), TicketAttrs(1, 1, performance), TicketAttrs(11, 1, performance)];
      && Rejected(db, requests, InvalidTickets([BatchError(2, RowOutOfRange(11, 1, 10))]))
      && (Rejected(db, requests, e) ==> e == InvalidTickets([BatchError(2, RowOutOfRange(11, 1, 10))]))
  {
    var requests := [TicketAttrs(1, 1, performance), TicketAttrs(1, 1, performance), TicketAttrs(11, 1, performance)];
    assert ValidateTickets(db, requests[..2]) == [] by {
      assert requests[..2][..1] == [requests[0]];
      assert requests[..2][..1][..0] == [];
    }
    SoldSeatsInRange(db, requests[2]);
    assert CheckTicket(db, requests[2]) == Some(RowOutOfRange(11, 1, 10));
    assert ValidateTickets(db, requests) == ValidateTickets(db, requests[..2]) + [BatchError(2, RowOutOfRange(11, 1, 10))];
  }

  /**
   * Two requests for the same free seat pass validation, and the batch is
   * stopped at the second INSERT.
   */
  lemma RepeatedSeatStoppedOnInsert(db: Db, attrs: TicketAttrs, e: ReservationError)
    requires Placeable(db, attrs)
    ensures ValidateTickets(db, [attrs, attrs]) == []
    ensures Rejected(db, [attrs, attrs], SeatClaimedTwice(1, attrs))
    ensures Rejected(db, [attrs, attrs], e) ==> e == SeatClaimedTwice(1, attrs)
  {
    var requests := [attrs, attrs];
    assert ValidateTickets(db, requests) == [];
    assert requests[..1] == [attrs];
    assert requests[..1][..0] == [];
  }
}
