/**
 * Seats and tickets: the seat-range validator, `TicketSerializer.validate`,
 * the storing of one ticket (`Ticket.objects.create`, whose `save()`
 * re-validates the seat before the row meets the `unique_together`
 * constraint), the batch of tickets a reservation creates, and the
 * `tickets_available` count of a performance.
 */
module Tickets {
  import opened Wrappers
  import opened Schema
  import opened Lists

  datatype TicketError =
    | UnknownPerformance(performance: Id)
    | RowOutOfRange(row: int, low: int, high: int)
    | SeatOutOfRange(seat: int, low: int, high: int)
    | SeatAlreadyTaken(attrs: TicketAttrs)
    | UnknownReservation(reservation: Id)

  // ---------------------------------------------------------------------
  // Validation
  // ---------------------------------------------------------------------

  /**
   * `Ticket.validate_ticket(row, seat, theatre_hall, error)`: raises (here
   * `Some`) when the row, and then the seat, lies outside the hall; the error
   * names the value and the inclusive range it had to lie in.
   */
  function ValidateSeat(row: int, seat: int, hall: TheatreHall): (r: Option<TicketError>)
    ensures r.None? <==> ValidSeat(row, seat, hall)
    ensures !(FirstRow <= row <= hall.rows) ==> r == Some(RowOutOfRange(row, FirstRow, hall.rows))
    ensures FirstRow <= row <= hall.rows && !(FirstSeat <= seat <= hall.seatsInRow) ==>
              r == Some(SeatOutOfRange(seat, FirstSeat, hall.seatsInRow))
  {
    if !(FirstRow <= row <= hall.rows) then Some(RowOutOfRange(row, FirstRow, hall.rows))
    else if !(FirstSeat <= seat <= hall.seatsInRow) then Some(SeatOutOfRange(seat, FirstSeat, hall.seatsInRow))
    else None
  }

  /** The cases the ticket tests check, in a hall of 10 rows of 20 seats. */
  lemma ValidateSeatInTenByTwentyHall()
    ensures var hall := TheatreHall("Main Hall", 10, 20);
      && ValidateSeat(5, 10, hall) == None
      && ValidateSeat(11, 10, hall) == Some(RowOutOfRange(11, 1, 10))
      && ValidateSeat(5, 21, hall) == Some(SeatOutOfRange(21, 1, 20))
  {
  }

  /**
   * `TicketSerializer.validate`: the performance must exist and the seat
   * must lie in its hall; on success the attributes come back unchanged.
   */
  function ValidateTicket(db: Db, attrs: TicketAttrs): (r: Result<TicketAttrs, TicketError>)
    ensures r.Success? <==>
      HallOf(db, attrs.performance).Some? && ValidSeat(attrs.row, attrs.seat, HallOf(db, attrs.performance).value)
    ensures r.Success? ==> r.value == attrs
    ensures HallOf(db, attrs.performance).None? ==> r == Failure(UnknownPerformance(attrs.performance))
    ensures HallOf(db, attrs.performance).Some? && r.Failure? ==>
      Some(r.error) == ValidateSeat(attrs.row, attrs.seat, HallOf(db, attrs.performance).value)
  {
    match HallOf(db, attrs.performance)
    case None => Failure(UnknownPerformance(attrs.performance))
    case Some(hall) =>
      match ValidateSeat(attrs.row, attrs.seat, hall)
      case Some(e) => Failure(e)
      case None => Success(attrs)
  }

  /** A ticket for `attrs` may be stored: its hall exists, the seat is in range and unclaimed. */
  predicate Placeable(db: Db, attrs: TicketAttrs) {
    && HallOf(db, attrs.performance).Some?
    && ValidSeat(attrs.row, attrs.seat, HallOf(db, attrs.performance).value)
    && !Taken(db.tickets, attrs)
  }

  /**
   * The nested `TicketSerializer` run on one ticket of a request during
   * `is_valid`, against the tables as they were before the request: the
   * `performance` key must resolve, then the `unique_together` validator DRF
   * derives from (row, seat, performance) refuses a seat already sold, then
   * `validate` checks the range.
   */
  function CheckTicket(db: Db, attrs: TicketAttrs): (r: Option<TicketError>)
    ensures r.None? <==> Placeable(db, attrs)
    ensures r == Some(SeatAlreadyTaken(attrs)) <==> HallOf(db, attrs.performance).Some? && Taken(db.tickets, attrs)
    ensures r.Some? && !r.value.SeatAlreadyTaken? ==> ValidateTicket(db, attrs) == Failure(r.value)
  {
    match HallOf(db, attrs.performance)
    case None => Some(UnknownPerformance(attrs.performance))
    case Some(hall) =>
      if Taken(db.tickets, attrs) then Some(SeatAlreadyTaken(attrs))
      else ValidateSeat(attrs.row, attrs.seat, hall)
  }

  /** Every sold seat lies inside its hall, so a seat outside the hall is never taken. */
  lemma SoldSeatsInRange(db: Db, attrs: TicketAttrs)
    requires Consistent(db)
    requires HallOf(db, attrs.performance).Some?
    requires !ValidSeat(attrs.row, attrs.seat, HallOf(db, attrs.performance).value)
    ensures !Taken(db.tickets, attrs)
  {
  }

  // ---------------------------------------------------------------------
  // Storing one ticket
  // ---------------------------------------------------------------------

  /** The ticket row `Ticket.objects.create(reservation=..., **attrs)` inserts. */
  function TicketFor(attrs: TicketAttrs, reservation: Id): Ticket {
    Ticket(attrs.row, attrs.seat, attrs.performance, reservation)
  }

  /** The state after a ticket was inserted under the next ticket key. */
  function WithTicket(db: Db, t: Ticket): Db {
    db.(tickets := db.tickets[db.next.ticket := t], next := db.next.(ticket := db.next.ticket + 1))
  }

  /**
   * `Ticket.objects.create(reservation=..., **attrs)`: `save()` validates the
   * seat again, then the INSERT either violates a constraint (the seat is
   * taken, or the reservation does not exist) or stores exactly one new row.
   */
  function SaveTicket(db: Db, attrs: TicketAttrs, reservation: Id): (r: Result<Db, TicketError>)
    ensures r.Success? <==> Placeable(db, attrs) && reservation in db.reservations
    ensures r.Success? ==> r.value == WithTicket(db, TicketFor(attrs, reservation))
    ensures r.Failure? && HallOf(db, attrs.performance).Some?
              && ValidSeat(attrs.row, attrs.seat, HallOf(db, attrs.performance).value) ==>
      r.error == if Taken(db.tickets, attrs) then SeatAlreadyTaken(attrs) else UnknownReservation(reservation)
    ensures ValidateTicket(db, attrs).Failure? ==> r == Failure(ValidateTicket(db, attrs).error)
    ensures Consistent(db) && r.Success? ==> Consistent(r.value)
  {
    match ValidateTicket(db, attrs)
    case Failure(e) => Failure(e)
    case Success(_) =>
      if Taken(db.tickets, attrs) then Failure(SeatAlreadyTaken(attrs))
      else if reservation !in db.reservations then Failure(UnknownReservation(reservation))
      else
        var after := WithTicket(db, TicketFor(attrs, reservation));
        assert forall p :: HallOf(after, p) == HallOf(db, p);
        Success(after)
  }

  /** The scenario of two identical requests: the first is stored, the second finds the seat taken. */
  lemma SecondClaimOfSeatFails(db: Db, attrs: TicketAttrs, reservation: Id)
    requires Consistent(db)
    requires SaveTicket(db, attrs, reservation).Success?
    ensures SaveTicket(SaveTicket(db, attrs, reservation).value, attrs, reservation)
              == Failure(SeatAlreadyTaken(attrs))
  {
    var after := SaveTicket(db, attrs, reservation).value;
    assert after.tickets[db.next.ticket].Attrs() == attrs;
  }

  // ---------------------------------------------------------------------
  // Availability
  // ---------------------------------------------------------------------

  /** The keys of the tickets sold for a performance (`Count("tickets")`). */
  function TicketsFor(tickets: map<Id, Ticket>, performance: Id): set<Id> {
    set k | k in tickets && tickets[k].performance == performance
  }

  /** `tickets_available = rows * seats_in_row - Count("tickets")`; nothing floors it at zero. */
  function TicketsAvailable(db: Db, performance: Id): (r: int)
    requires HallOf(db, performance).Some?
    ensures r <= Capacity(HallOf(db, performance).value)
  {
    Capacity(HallOf(db, performance).value) - |TicketsFor(db.tickets, performance)|
  }

  /** Every (row, seat) a hall of the given size offers, row by row. */
  function Grid(rows: int, seats: int): set<(int, int)>
    decreases rows
  {
    if rows < FirstRow then {} else Grid(rows - 1, seats) + GridRow(rows, seats)
  }

  /** The seats of one row. */
  function GridRow(row: int, seats: int): set<(int, int)>
    decreases seats
  {
    if seats < FirstSeat then {} else GridRow(row, seats - 1) + {(row, seats)}
  }

  lemma {:induction false} GridRowMembers(row: int, seats: int)
    ensures forall r, s :: (r, s) in GridRow(row, seats) <==> r == row && FirstSeat <= s <= seats
    decreases seats
  {
    if seats >= FirstSeat {
      GridRowMembers(row, seats - 1);
    }
  }

  lemma {:induction false} GridMembers(rows: int, seats: int)
    ensures forall r, s :: (r, s) in Grid(rows, seats) <==> FirstRow <= r <= rows && FirstSeat <= s <= seats
    decreases rows
  {
    if rows >= FirstRow {
      GridMembers(rows - 1, seats);
      GridRowMembers(rows, seats);
    }
  }

  lemma {:induction false} GridRowSize(row: int, seats: nat)
    ensures |GridRow(row, seats)| == seats
    decreases seats
  {
    if seats > 0 {
      GridRowSize(row, seats - 1);
      GridRowMembers(row, seats - 1);
    }
  }

  /** A new row shares no seat with the rows before it. */
  lemma GridRowApart(rows: int, seats: int)
    ensures Grid(rows - 1, seats) !! GridRow(rows, seats)
  {
    GridMembers(rows - 1, seats);
    GridRowMembers(rows, seats);
    forall p | p in GridRow(rows, seats)
      ensures p !in Grid(rows - 1, seats)
    {
      var (r, s) := p;
      assert (r, s) in GridRow(rows, seats);
    }
  }

  /** A hall of R rows of S seats offers exactly R * S seats. */
  lemma {:induction false} GridSize(rows: nat, seats: nat)
    ensures |Grid(rows, seats)| == rows * seats
    decreases rows
  {
    if rows > 0 {
      GridSize(rows - 1, seats);
      GridRowSize(rows, seats);
      GridRowApart(rows, seats);
      assert |Grid(rows, seats)| == |Grid(rows - 1, seats)| + |GridRow(rows, seats)|;
      assert (rows - 1) * seats + seats == rows * seats;
    }
  }

  function Cell(t: Ticket): (int, int) {
    (t.row, t.seat)
  }

  function CellsOf(tickets: map<Id, Ticket>, ks: set<Id>): set<(int, int)> {
    set k | k in ks && k in tickets :: Cell(tickets[k])
  }

  /** Tickets whose cells are pairwise different occupy as many cells as there are tickets. */
  lemma {:induction false} CellsOfSize(tickets: map<Id, Ticket>, ks: set<Id>)
    requires ks <= tickets.Keys
    requires forall a, b :: a in ks && b in ks && a != b ==> Cell(tickets[a]) != Cell(tickets[b])
    ensures |CellsOf(tickets, ks)| == |ks|
    decreases |ks|
  {
    if ks != {} {
      var k :| k in ks;
      var rest := ks - {k};
      CellsOfSize(tickets, rest);
      assert CellsOf(tickets, ks) == CellsOf(tickets, rest) + {Cell(tickets[k])};
      assert Cell(tickets[k]) !in CellsOf(tickets, rest);
    } else {
      assert CellsOf(tickets, ks) == {};
    }
  }

  /** Unique seats inside the hall: a performance never has more tickets than its hall has seats. */
  lemma SoldWithinHall(db: Db, performance: Id)
    requires Consistent(db)
    requires HallOf(db, performance).Some?
    ensures var hall := HallOf(db, performance).value;
      |TicketsFor(db.tickets, performance)| <= |Grid(hall.rows, hall.seatsInRow)|
  {
    var hall := HallOf(db, performance).value;
    var ks := TicketsFor(db.tickets, performance);
    forall a, b | a in ks && b in ks && a != b
      ensures Cell(db.tickets[a]) != Cell(db.tickets[b])
    {
      assert db.tickets[a].Attrs() != db.tickets[b].Attrs();
    }
    CellsOfSize(db.tickets, ks);
    GridMembers(hall.rows, hall.seatsInRow);
    assert CellsOf(db.tickets, ks) <= Grid(hall.rows, hall.seatsInRow) by {
      forall k | k in ks
        ensures Cell(db.tickets[k]) in Grid(hall.rows, hall.seatsInRow)
      {
        var t := db.tickets[k];
        assert HallOf(db, t.performance).Some? && ValidSeat(t.row, t.seat, HallOf(db, t.performance).value);
      }
    }
    SubsetSize(CellsOf(db.tickets, ks), Grid(hall.rows, hall.seatsInRow));
  }

  /**
   * With the range and uniqueness constraints in force, `tickets_available`
   * is never negative for a hall whose `rows * seats_in_row` is not.
   */
  lemma AvailabilityNonNegative(db: Db, performance: Id)
    requires Consistent(db)
    requires HallOf(db, performance).Some?
    requires Capacity(HallOf(db, performance).value) >= 0
    ensures TicketsAvailable(db, performance) >= 0
  {
    var hall := HallOf(db, performance).value;
    SoldWithinHall(db, performance);
    if hall.rows >= 0 && hall.seatsInRow >= 0 {
      GridSize(hall.rows, hall.seatsInRow);
    } else {
      GridMembers(hall.rows, hall.seatsInRow);
      assert Grid(hall.rows, hall.seatsInRow) == {};
    }
  }

  lemma TicketsForInsert(tickets: map<Id, Ticket>, k: Id, t: Ticket, performance: Id)
    requires k !in tickets
    ensures TicketsFor(tickets[k := t], performance)
              == TicketsFor(tickets, performance) + (if t.performance == performance then {k} else {})
    ensures |TicketsFor(tickets[k := t], performance)|
              == |TicketsFor(tickets, performance)| + (if t.performance == performance then 1 else 0)
  {
    assert TicketsFor(tickets[k := t], performance)
             == TicketsFor(tickets, performance) + (if t.performance == performance then {k} else {});
  }

  /**
   * Storing one ticket for performance P lowers P's `tickets_available` by
   * exactly one and leaves every other performance's value as it was.
   */
  lemma SaveLowersAvailability(db: Db, attrs: TicketAttrs, reservation: Id, performance: Id)
    requires KeysBelow(db.tickets, db.next.ticket)
    requires SaveTicket(db, attrs, reservation).Success?
    requires HallOf(db, performance).Some?
    ensures var after := SaveTicket(db, attrs, reservation).value;
      && HallOf(after, performance) == HallOf(db, performance)
      && TicketsAvailable(after, performance)
           == TicketsAvailable(db, performance) - (if performance == attrs.performance then 1 else 0)
  {
    TicketsForInsert(db.tickets, db.next.ticket, TicketFor(attrs, reservation), performance);
  }

  // ---------------------------------------------------------------------
  // A reservation's batch of tickets
  // ---------------------------------------------------------------------

  /** Where a batch failed: the position of the first failing request and its error. */
  datatype BatchError = BatchError(index: nat, cause: TicketError)

  /**
   * Every request could be stored against `db` and no two requests claim the
   * same seat: the condition under which a whole batch commits.
   */
  ghost predicate Admissible(db: Db, requests: seq<TicketAttrs>) {
    && (forall i :: 0 <= i < |requests| ==> Placeable(db, requests[i]))
    && (forall i, j :: 0 <= i < j < |requests| ==> requests[i] != requests[j])
  }

  /** The tickets a batch stores: request `i` under key `first + i`, in request order. */
  function Issued(requests: seq<TicketAttrs>, reservation: Id, first: Id): map<Id, Ticket>
    decreases |requests|
  {
    if requests == [] then map[]
    else
      var n := |requests| - 1;
      Issued(requests[..n], reservation, first)[first + n := TicketFor(requests[n], reservation)]
  }

  /** Tickets are issued in request order, one per request, each in the new reservation. */
  lemma {:induction false} IssuedInRequestOrder(requests: seq<TicketAttrs>, reservation: Id, first: Id)
    ensures var issued := Issued(requests, reservation, first);
      && |issued| == |requests|
      && (forall k :: k in issued <==> first <= k < first + |requests|)
      && (forall i :: 0 <= i < |requests| ==> issued[first + i] == TicketFor(requests[i], reservation))
    decreases |requests|
  {
    if requests != [] {
      var n := |requests| - 1;
      IssuedInRequestOrder(requests[..n], reservation, first);
      forall i | 0 <= i < |requests|
        ensures Issued(requests, reservation, first)[first + i] == TicketFor(requests[i], reservation)
      {
        IssuedAt(requests, requests[..n], reservation, first, i);
      }
    }
  }

  /**
   * One step of the induction above: the ticket under key `first + i` is
   * the one for request `i`, given that this holds for the shorter batch.
   */
  lemma IssuedAt(requests: seq<TicketAttrs>, init: seq<TicketAttrs>, reservation: Id, first: Id, i: nat)
    requires requests != [] && init == requests[..|requests| - 1]
    requires forall j :: 0 <= j < |init| ==>
      first + j in Issued(init, reservation, first) && Issued(init, reservation, first)[first + j] == TicketFor(init[j], reservation)
    requires i < |requests|
    ensures first + i in Issued(requests, reservation, first)
    ensures Issued(requests, reservation, first)[first + i] == TicketFor(requests[i], reservation)
  {
    var n := |requests| - 1;
    var earlier := Issued(init, reservation, first);
    assert Issued(requests, reservation, first) == earlier[first + n := TicketFor(requests[n], reservation)];
    if i < n {
      assert init[i] == requests[i];
      assert first + i in earlier && earlier[first + i] == TicketFor(requests[i], reservation);
    }
  }

  /** How many requests of a batch are for the given performance. */
  function CountFor(requests: seq<TicketAttrs>, performance: Id): nat {
    if requests == [] then 0
    else CountFor(requests[..|requests| - 1], performance)
         + (if requests[|requests| - 1].performance == performance then 1 else 0)
  }

  /** A batch adds to a performance's sold tickets exactly its requests for that performance. */
  lemma {:induction false} IssuedCount(base: map<Id, Ticket>, requests: seq<TicketAttrs>, reservation: Id, first: Id, performance: Id)
    requires KeysBelow(base, first)
    ensures |TicketsFor(base + Issued(requests, reservation, first), performance)|
              == |TicketsFor(base, performance)| + CountFor(requests, performance)
    decreases |requests|
  {
    if requests == [] {
      assert base + map[] == base;
    } else {
      var n := |requests| - 1;
      var init := requests[..n];
      IssuedCount(base, init, reservation, first, performance);
      var t := TicketFor(requests[n], reservation);
      var earlier := Issued(init, reservation, first);
      IssuedFresh(base, requests, reservation, first);
      IssuedLast(requests, reservation, first);
      MergeUpdate(base, earlier, first + n, t);
      TicketsForInsert(base + earlier, first + n, t, performance);
    }
  }

  /** The key of the last request of a batch is fresh for what the earlier ones stored. */
  lemma IssuedFresh(base: map<Id, Ticket>, requests: seq<TicketAttrs>, reservation: Id, first: Id)
    requires KeysBelow(base, first)
    requires requests != []
    ensures first + |requests| - 1 !in base + Issued(requests[..|requests| - 1], reservation, first)
  {
    IssuedInRequestOrder(requests[..|requests| - 1], reservation, first);
  }

  lemma IssuedLast(requests: seq<TicketAttrs>, reservation: Id, first: Id)
    requires requests != []
    ensures var n := |requests| - 1;
      Issued(requests, reservation, first)
        == Issued(requests[..n], reservation, first)[first + n := TicketFor(requests[n], reservation)]
  {
  }

  lemma MergeUpdate<K, V>(base: map<K, V>, m: map<K, V>, k: K, v: V)
    ensures base + m[k := v] == (base + m)[k := v]
  {
  }

  /** Admissibility of a batch carries over to every prefix of it. */
  lemma AdmissiblePrefix(db: Db, requests: seq<TicketAttrs>, n: nat)
    requires n <= |requests|
    ensures Admissible(db, requests) ==> Admissible(db, requests[..n])
  {
    assert forall i :: 0 <= i < n ==> requests[..n][i] == requests[i];
  }

  /**
   * `is_valid` on the `tickets` list (`ListSerializer.to_internal_value`):
   * every ticket is checked against the tables before the request, and every
   * rejected one is reported with its position, in request order. Requests
   * that repeat each other are not compared here.
   */
  function ValidateTickets(db: Db, requests: seq<TicketAttrs>): (r: seq<BatchError>)
    ensures forall e :: e in r ==> e.index < |requests| && CheckTicket(db, requests[e.index]) == Some(e.cause)
    ensures forall i :: 0 <= i < |requests| && CheckTicket(db, requests[i]).Some? ==>
              BatchError(i, CheckTicket(db, requests[i]).value) in r
    ensures forall a, b :: 0 <= a < b < |r| ==> r[a].index < r[b].index
    ensures r == [] <==> forall i :: 0 <= i < |requests| ==> Placeable(db, requests[i])
    decreases |requests|
  {
    if requests == [] then []
    else
      var n := |requests| - 1;
      var earlier := ValidateTickets(db, requests[..n]);
      assert forall i :: 0 <= i < n ==> requests[..n][i] == requests[i];
      match CheckTicket(db, requests[n])
      case None => earlier
      case Some(e) => earlier + [BatchError(n, e)]
  }
}
