/**
 * The database as one mutable object. Each method is one request handled
 * by the viewsets: it either commits a new state that satisfies every
 * constraint of `Schema.Consistent`, or reports an error and leaves the
 * state as it was. A transaction works on a copy of the state and assigns
 * it back only when every step succeeded.
 */
module Booking {
  import opened Wrappers
  import opened Schema
  import opened Tickets
  import opened Reservations
  import opened Props

  datatype InsertError =
    | GenreNameTaken(name: string)
    | UnknownGenre(genre: Id)
    | UnknownActor(actor: Id)
    | UnknownPlay(play: Id)
    | UnknownHall(hall: Id)

  class Store {
    var db: Db

    ghost predicate Valid()
      reads this
    {
      Consistent(db)
    }

    /** A freshly migrated, empty database. */
    constructor ()
      ensures db == EmptyDb()
      ensures Valid()
    {
      db := EmptyDb();
      EmptyDbConsistent();
    }

    method AddActor(firstName: string, lastName: string) returns (id: Id)
      requires Valid()
      modifies this
      ensures Valid()
      ensures id == old(db).next.actor && id !in old(db).actors
      ensures db == old(db).(actors := old(db).actors[id := Actor(firstName, lastName)],
                             next := old(db).next.(actor := id + 1))
    {
      id := db.next.actor;
      db := db.(actors := db.actors[id := Actor(firstName, lastName)], next := db.next.(actor := id + 1));
    }

    /** Creating a genre whose name is already in use fails (`Genre.name` is unique). */
    method AddGenre(name: string) returns (r: Result<Id, InsertError>)
      requires Valid()
      modifies this
      ensures Valid()
      ensures r.Failure? <==> exists k :: k in old(db).genres && old(db).genres[k].name == name
      ensures r.Failure? ==> r.error == GenreNameTaken(name) && db == old(db)
      ensures r.Success? ==>
        && r.value == old(db).next.genre && r.value !in old(db).genres
        && db == old(db).(genres := old(db).genres[r.value := Genre(name)], next := old(db).next.(genre := r.value + 1))
    {
      if exists k :: k in db.genres && db.genres[k].name == name {
        return Failure(GenreNameTaken(name));
      }
      var id := db.next.genre;
      db := db.(genres := db.genres[id := Genre(name)], next := db.next.(genre := id + 1));
      r := Success(id);
    }

    /** A play's genres and actors must exist. */
    method AddPlay(title: string, description: string, genres: set<Id>, actors: set<Id>) returns (r: Result<Id, InsertError>)
      requires Valid()
      modifies this
      ensures Valid()
      ensures r.Success? <==> genres <= old(db).genres.Keys && actors <= old(db).actors.Keys
      ensures r.Failure? ==> db == old(db)
      ensures r.Failure? && !(genres <= old(db).genres.Keys) ==>
        r.error.UnknownGenre? && r.error.genre in genres && r.error.genre !in old(db).genres
      ensures r.Failure? && genres <= old(db).genres.Keys ==>
        r.error.UnknownActor? && r.error.actor in actors && r.error.actor !in old(db).actors
      ensures r.Success? ==>
        && r.value == old(db).next.play && r.value !in old(db).plays
        && db == old(db).(plays := old(db).plays[r.value := Play(title, description, genres, actors)],
                          next := old(db).next.(play := r.value + 1))
    {
      if !(genres <= db.genres.Keys) {
        var g :| g in genres && g !in db.genres;
        return Failure(UnknownGenre(g));
      }
      if !(actors <= db.actors.Keys) {
        var a :| a in actors && a !in db.actors;
        return Failure(UnknownActor(a));
      }
      var id := db.next.play;
      db := db.(plays := db.plays[id := Play(title, description, genres, actors)], next := db.next.(play := id + 1));
      r := Success(id);
    }

    /** `rows` and `seats_in_row` are plain integers: nothing bounds them. */
    method AddHall(name: string, rows: int, seatsInRow: int) returns (id: Id)
      requires Valid()
      modifies this
      ensures Valid()
      ensures id == old(db).next.hall && id !in old(db).halls
      ensures db == old(db).(halls := old(db).halls[id := TheatreHall(name, rows, seatsInRow)],
                             next := old(db).next.(hall := id + 1))
    {
      id := db.next.hall;
      db := db.(halls := db.halls[id := TheatreHall(name, rows, seatsInRow)], next := db.next.(hall := id + 1));
    }

    /** A performance's play and hall must exist. */
    method AddPerformance(play: Id, hall: Id, showTime: Instant) returns (r: Result<Id, InsertError>)
      requires Valid()
      modifies this
      ensures Valid()
      ensures r.Success? <==> play in old(db).plays && hall in old(db).halls
      ensures r.Failure? ==> db == old(db)
      ensures r.Failure? ==> r.error == if play !in old(db).plays then UnknownPlay(play) else UnknownHall(hall)
      ensures r.Success? ==>
        && r.value == old(db).next.performance && r.value !in old(db).performances
        && db == old(db).(performances := old(db).performances[r.value := Performance(play, hall, showTime)],
                          next := old(db).next.(performance := r.value + 1))
    {
      if play !in db.plays {
        return Failure(UnknownPlay(play));
      }
      if hall !in db.halls {
        return Failure(UnknownHall(hall));
      }
      var id := db.next.performance;
      db := db.(performances := db.performances[id := Performance(play, hall, showTime)],
                next := db.next.(performance := id + 1));
      assert forall p :: p in old(db).performances ==> HallOf(db, p) == HallOf(old(db), p);
      r := Success(id);
    }

    /**
     * A single `Ticket.objects.create`: the seat is validated again, and a
     * ticket that would repeat a (row, seat, performance) fails and leaves
     * the ticket table as it was.
     */
    method InsertTicket(attrs: TicketAttrs, reservation: Id) returns (r: Result<Id, TicketError>)
      requires Valid()
      modifies this
      ensures Valid()
      ensures r.Success? <==> Placeable(old(db), attrs) && reservation in old(db).reservations
      ensures Taken(old(db).tickets, attrs) ==> r.Failure?
      ensures r.Failure? ==> db == old(db)
      ensures r.Success? ==>
        && r.value == old(db).next.ticket && r.value !in old(db).tickets
        && db == WithTicket(old(db), TicketFor(attrs, reservation))
    {
      match SaveTicket(db, attrs, reservation)
      case Failure(e) =>
        r := Failure(e);
      case Success(after) =>
        r := Success(db.next.ticket);
        db := after;
    }

    /**
     * A reservation request: `is_valid` checks every ticket against the
     * tables first and refuses the request if any fails. Then
     * `ReservationSerializer.create` runs under `transaction.atomic()`, with
     * the owner stamped by `perform_create`. It creates the reservation for
     * `user` at `now`, then one ticket per request, in order. An INSERT that
     * repeats a seat of the same batch aborts the whole transaction.
     */
    method CreateReservation(user: Id, now: Instant, requests: seq<TicketAttrs>) returns (r: Result<Id, ReservationError>)
      requires Valid()
      modifies this
      ensures Valid()
      ensures r.Success? <==> Admissible(old(db), requests)
      ensures r.Success? ==> r.value == old(db).next.reservation && db == Reserved(old(db), user, now, requests)
      ensures r.Failure? ==> db == old(db) && Rejected(old(db), requests, r.error)
    {
      var errors := ValidateTickets(db, requests);
      if errors != [] {
        return Failure(InvalidTickets(errors));
      }
      var start := db;
      var reservation := start.next.reservation;
      ReservedNothing(start, user, now);
      OpenedKeepsConsistent(start, user, now);
      var work := Opened(start, user, now);
      var i := 0;
      while i < |requests|
        invariant 0 <= i <= |requests|
        invariant db == start
        invariant work == Reserved(start, user, now, requests[..i])
        invariant Admissible(start, requests[..i])
        invariant Consistent(work)
      {
        PlaceableDuringBatch(start, user, now, requests[..i], requests[i]);
        AdmissibleExtend(start, requests, i);
        assert reservation in work.reservations;
        match SaveTicket(work, requests[i], reservation)
        case Failure(_) =>
          AdmissiblePrefix(start, requests, i + 1);
          return Failure(SeatClaimedTwice(i, requests[i]));
        case Success(after) =>
          ReservedStep(start, user, now, requests, i);
          work := after;
          i := i + 1;
      }
      assert requests[..i] == requests;
      db := work;
      r := Success(reservation);
    }

    /**
     * `PerformanceDetailSerializer.update` under `transaction.atomic()`: save
     * the new show time, clear the performance's props, then get-or-create
     * each requested name and attach the prop. Any failure rolls back.
     */
    method UpdatePerformanceProps(performance: Id, showTime: Option<Instant>, propNames: Option<seq<string>>)
      returns (r: Outcome<UpdateError>)
      requires Valid()
      modifies this
      ensures Valid()
      ensures r.Pass? <==> PerformanceUpdate(old(db), performance, showTime, propNames).Success?
      ensures r.Pass? ==> db == PerformanceUpdate(old(db), performance, showTime, propNames).value
      ensures r.Fail? ==> db == old(db) && r.error == PerformanceUpdate(old(db), performance, showTime, propNames).error
    {
      if performance !in db.performances {
        return Fail(PerformanceNotFound(performance));
      }
      if propNames.None? {
        return Fail(PropsMissing);
      }
      var names := propNames.value;
      var start := db;
      var cleared := Cleared(start.propLinks, performance);
      var before := start.performances[performance];
      var scheduled := start.performances[performance := before.(showTime := showTime.GetOr(before.showTime))];
      var work := Attached(start.props, start.next.prop, cleared);
      var i := 0;
      assert names[..0] == [];
      while i < |names|
        invariant 0 <= i <= |names|
        invariant db == start
        invariant AttachAll(start.props, start.next.prop, cleared, performance, names[..i]) == Success(work)
      {
        assert names[..i + 1][..i] == names[..i];
        match GetOrCreateProp(work.props, work.next, names[i])
        case Failure(e) =>
          AttachAllFailureSticks(start.props, start.next.prop, cleared, performance, names, i + 1);
          PerformanceUpdateRollsBack(start, performance, showTime, names);
          return Fail(e);
        case Success(got) =>
          work := Attached(got.props, got.next, work.links + {PropLink(got.prop, performance)});
          i := i + 1;
      }
      assert names[..i] == names;
      PerformanceUpdateCommits(start, performance, showTime, names, work);
      PerformanceUpdateKeepsConsistent(start, performance, showTime, names);
      db := start.(performances := scheduled, props := work.props, propLinks := work.links,
                   next := start.next.(prop := work.next));
      r := Pass;
    }

    /** Deleting a reservation deletes its tickets (`on_delete=CASCADE`). */
    method DeleteReservation(reservation: Id)
      requires Valid()
      modifies this
      ensures Valid()
      ensures db == Schema.DeleteReservation(old(db), reservation)
    {
      DeleteReservationsKeepsConsistent(db, {reservation});
      db := Schema.DeleteReservation(db, reservation);
    }

    /** Deleting a user deletes the user's reservations and their tickets. */
    method DeleteUser(user: Id)
      requires Valid()
      modifies this
      ensures Valid()
      ensures db == Schema.DeleteUser(old(db), user)
    {
      DeleteReservationsKeepsConsistent(db, set k | k in db.reservations && db.reservations[k].user == user);
      db := Schema.DeleteUser(db, user);
    }

    /** Deleting a performance deletes its tickets and its prop rows. */
    method DeletePerformance(performance: Id)
      requires Valid()
      modifies this
      ensures Valid()
      ensures db == Schema.DeletePerformance(old(db), performance)
    {
      DeletePerformancesKeepsConsistent(db, {performance});
      db := Schema.DeletePerformance(db, performance);
    }

    /** Deleting a play deletes its performances and, with them, their tickets. */
    method DeletePlay(play: Id)
      requires Valid()
      modifies this
      ensures Valid()
      ensures db == Schema.DeletePlay(old(db), play)
    {
      DeletePlayKeepsConsistent(db, play);
      db := Schema.DeletePlay(db, play);
    }

    /** Deleting a hall deletes its performances and, with them, their tickets. */
    method DeleteHall(hall: Id)
      requires Valid()
      modifies this
      ensures Valid()
      ensures db == Schema.DeleteHall(old(db), hall)
    {
      DeleteHallKeepsConsistent(db, hall);
      db := Schema.DeleteHall(db, hall);
    }
  }
}
