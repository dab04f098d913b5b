/**
 * The theatre database as the squashed initial migration declares it:
 * one map per table from primary key to row, the auto-increment counter of
 * each table, the many-to-many rows linking props to performances, the
 * constraints the migration declares (foreign keys, `unique_together` on a
 * ticket's seat, unique genre names) together with the ticket seat range,
 * an application invariant that validation keeps, what `on_delete=CASCADE`
 * removes, and each model's default `ordering`.
 */
module Schema {
  import opened Wrappers
  import opened Text
  import opened Lists

  /** A primary key (`BigAutoField`). */
  type Id = nat

  /** A `DateTimeField` value, in seconds since the epoch (UTC). */
  type Instant = int

  const SecondsPerDay: int := 86400

  /** The calendar day of an instant (`show_time__date`), counted from the epoch. */
  function DateOf(t: Instant): (d: int)
    ensures d * SecondsPerDay <= t < (d + 1) * SecondsPerDay
  {
    t / SecondsPerDay
  }

  datatype Actor = Actor(firstName: string, lastName: string)

  datatype Genre = Genre(name: string)

  /** `image` is a file reference and is not part of this model. */
  datatype Play = Play(title: string, description: string, genres: set<Id>, actors: set<Id>)

  datatype TheatreHall = TheatreHall(name: string, rows: int, seatsInRow: int)

  datatype Performance = Performance(play: Id, theatreHall: Id, showTime: Instant)

  datatype Reservation = Reservation(createdAt: Instant, user: Id)

  /** The columns of a ticket that `unique_together` covers, and the attributes a client sends. */
  datatype TicketAttrs = TicketAttrs(row: int, seat: int, performance: Id)

  datatype Ticket = Ticket(row: int, seat: int, performance: Id, reservation: Id) {
    function Attrs(): TicketAttrs {
      TicketAttrs(row, seat, performance)
    }
  }

  datatype Prop = Prop(name: string)

  /** A row of the `Prop.performance` many-to-many table (`related_name='props'`). */
  datatype PropLink = PropLink(prop: Id, performance: Id)

  /** The next primary key each table hands out. */
  datatype Counters = Counters(
    actor: Id, genre: Id, play: Id, hall: Id, performance: Id,
    reservation: Id, ticket: Id, prop: Id)

  datatype Db = Db(
    actors: map<Id, Actor>,
    genres: map<Id, Genre>,
    plays: map<Id, Play>,
    halls: map<Id, TheatreHall>,
    performances: map<Id, Performance>,
    reservations: map<Id, Reservation>,
    tickets: map<Id, Ticket>,
    props: map<Id, Prop>,
    propLinks: set<PropLink>,
    next: Counters)

  /** A freshly migrated database: every table empty, every sequence at 1. */
  function EmptyDb(): Db {
    Db(map[], map[], map[], map[], map[], map[], map[], map[], {},
       Counters(1, 1, 1, 1, 1, 1, 1, 1))
  }

  // ---------------------------------------------------------------------
  // The seat range of a ticket
  // ---------------------------------------------------------------------

  /**
   * The lowest row and seat number a ticket may name. The validator's body
   * (`Ticket.validate_ticket`) is not part of this model: its upper bounds are
   * known from its call site and tests, and numbering from 1 is an
   * assumption of this model.
   */
  const FirstRow: int := 1
  const FirstSeat: int := 1

  /** The seat lies inside the hall: rows and seats are numbered from 1. */
  predicate ValidSeat(row: int, seat: int, hall: TheatreHall) {
    FirstRow <= row <= hall.rows && FirstSeat <= seat <= hall.seatsInRow
  }

  /** `rows * seats_in_row` (the hall's `capacity`). */
  function Capacity(hall: TheatreHall): int {
    hall.rows * hall.seatsInRow
  }

  /** The hall a performance takes place in, if both rows exist. */
  function HallOf(db: Db, performance: Id): Option<TheatreHall> {
    if performance in db.performances && db.performances[performance].theatreHall in db.halls
    then Some(db.halls[db.performances[performance].theatreHall])
    else None
  }

  // ---------------------------------------------------------------------
  // Constraints of a stored state
  // ---------------------------------------------------------------------

  ghost predicate KeysBelow<T>(m: map<Id, T>, next: Id) {
    forall k :: k in m ==> k < next
  }

  /** Every key was handed out by its table's sequence. */
  ghost predicate KeysIssued(db: Db) {
    && KeysBelow(db.actors, db.next.actor)
    && KeysBelow(db.genres, db.next.genre)
    && KeysBelow(db.plays, db.next.play)
    && KeysBelow(db.halls, db.next.hall)
    && KeysBelow(db.performances, db.next.performance)
    && KeysBelow(db.reservations, db.next.reservation)
    && KeysBelow(db.tickets, db.next.ticket)
    && KeysBelow(db.props, db.next.prop)
  }

  /** `Genre.name` is `unique=True`. */
  ghost predicate GenreNamesUnique(genres: map<Id, Genre>) {
    forall a, b :: a in genres && b in genres && a != b ==> genres[a].name != genres[b].name
  }

  /** The many-to-many rows of a play name existing genres and actors. */
  ghost predicate PlaysLinked(db: Db) {
    forall k :: k in db.plays ==> db.plays[k].genres <= db.genres.Keys && db.plays[k].actors <= db.actors.Keys
  }

  /** `Performance.play` and `Performance.theatre_hall` are foreign keys. */
  ghost predicate PerformancesLinked(db: Db) {
    forall k :: k in db.performances ==>
      db.performances[k].play in db.plays && db.performances[k].theatreHall in db.halls
  }

  /** `Ticket.performance` and `Ticket.reservation` are foreign keys. */
  ghost predicate TicketsLinked(db: Db) {
    forall k :: k in db.tickets ==>
      db.tickets[k].performance in db.performances && db.tickets[k].reservation in db.reservations
  }

  /**
   * Every stored ticket names a seat inside its performance's hall. The
   * columns are plain integers; this is the application's invariant, kept by
   * the ticket validation that runs before every insert.
   */
  ghost predicate TicketsInRange(db: Db) {
    forall k :: k in db.tickets ==>
      var t := db.tickets[k];
      HallOf(db, t.performance).Some? && ValidSeat(t.row, t.seat, HallOf(db, t.performance).value)
  }

  /** `unique_together = (row, seat, performance)`. */
  ghost predicate SeatsUnique(tickets: map<Id, Ticket>) {
    forall a, b :: a in tickets && b in tickets && a != b ==> tickets[a].Attrs() != tickets[b].Attrs()
  }

  /** Both ends of every prop/performance row exist. */
  ghost predicate PropLinksLinked(db: Db) {
    forall l :: l in db.propLinks ==> l.prop in db.props && l.performance in db.performances
  }

  /** The constraints every committed state satisfies. */
  ghost predicate Consistent(db: Db) {
    && KeysIssued(db)
    && GenreNamesUnique(db.genres)
    && PlaysLinked(db)
    && PerformancesLinked(db)
    && TicketsLinked(db)
    && TicketsInRange(db)
    && SeatsUnique(db.tickets)
    && PropLinksLinked(db)
  }

  lemma EmptyDbConsistent()
    ensures Consistent(EmptyDb())
  {
  }

  /** Some stored ticket already claims this seat of this performance. */
  predicate Taken(tickets: map<Id, Ticket>, attrs: TicketAttrs) {
    exists k :: k in tickets && tickets[k].Attrs() == attrs
  }

  // ---------------------------------------------------------------------
  // on_delete=CASCADE
  // ---------------------------------------------------------------------

  /** Deletes the given reservations and, by cascade, every ticket in them. */
  function DeleteReservations(db: Db, gone: set<Id>): (r: Db)
    ensures r.reservations.Keys == db.reservations.Keys - gone
    ensures forall k :: k in r.reservations ==> r.reservations[k] == db.reservations[k]
    ensures forall k :: k in r.tickets <==> k in db.tickets && db.tickets[k].reservation !in gone
    ensures forall k :: k in r.tickets ==> r.tickets[k] == db.tickets[k]
    ensures r.(reservations := db.reservations, tickets := db.tickets) == db
  {
    db.(reservations := map k | k in db.reservations && k !in gone :: db.reservations[k],
        tickets := map k | k in db.tickets && db.tickets[k].reservation !in gone :: db.tickets[k])
  }

  /** Deleting a reservation removes exactly its tickets. */
  function DeleteReservation(db: Db, reservation: Id): (r: Db)
    ensures reservation !in r.reservations
    ensures forall k :: k in r.tickets <==> k in db.tickets && db.tickets[k].reservation != reservation
  {
    DeleteReservations(db, {reservation})
  }

  /** Deleting a user removes that user's reservations and, with them, their tickets. */
  function DeleteUser(db: Db, user: Id): (r: Db)
    ensures forall k :: k in r.reservations <==> k in db.reservations && db.reservations[k].user != user
    ensures forall k :: k in r.tickets ==> k in db.tickets && r.tickets[k] == db.tickets[k]
    ensures TicketsLinked(db) ==>
      forall k :: k in r.tickets <==> k in db.tickets && db.reservations[db.tickets[k].reservation].user != user
  {
    DeleteReservations(db, set k | k in db.reservations && db.reservations[k].user == user)
  }

  /**
   * Deletes the given performances and, by cascade, their tickets and their
   * prop rows; the props themselves stay.
   */
  function DeletePerformances(db: Db, gone: set<Id>): (r: Db)
    ensures r.performances.Keys == db.performances.Keys - gone
    ensures forall k :: k in r.performances ==> r.performances[k] == db.performances[k]
    ensures forall k :: k in r.tickets <==> k in db.tickets && db.tickets[k].performance !in gone
    ensures forall k :: k in r.tickets ==> r.tickets[k] == db.tickets[k]
    ensures forall l :: l in r.propLinks <==> l in db.propLinks && l.performance !in gone
    ensures r.(performances := db.performances, tickets := db.tickets, propLinks := db.propLinks) == db
  {
    db.(performances := map k | k in db.performances && k !in gone :: db.performances[k],
        tickets := map k | k in db.tickets && db.tickets[k].performance !in gone :: db.tickets[k],
        propLinks := set l | l in db.propLinks && l.performance !in gone)
  }

  /** Deleting a performance removes exactly its tickets and its prop rows. */
  function DeletePerformance(db: Db, performance: Id): (r: Db)
    ensures performance !in r.performances
    ensures forall k :: k in r.tickets <==> k in db.tickets && db.tickets[k].performance != performance
  {
    DeletePerformances(db, {performance})
  }

  /** Deleting a play removes its performances and, transitively, their tickets. */
  function DeletePlay(db: Db, play: Id): (r: Db)
    ensures r.plays.Keys == db.plays.Keys - {play}
    ensures forall k :: k in r.performances <==> k in db.performances && db.performances[k].play != play
    ensures forall k :: k in r.tickets <==>
      k in db.tickets && !(db.tickets[k].performance in db.performances
                           && db.performances[db.tickets[k].performance].play == play)
  {
    var r := DeletePerformances(db, set k | k in db.performances && db.performances[k].play == play);
    r.(plays := map k | k in r.plays && k != play :: r.plays[k])
  }

  /** Deleting a hall removes its performances and, transitively, their tickets. */
  function DeleteHall(db: Db, hall: Id): (r: Db)
    ensures r.halls.Keys == db.halls.Keys - {hall}
    ensures forall k :: k in r.performances <==> k in db.performances && db.performances[k].theatreHall != hall
    ensures forall k :: k in r.tickets <==>
      k in db.tickets && !(db.tickets[k].performance in db.performances
                           && db.performances[db.tickets[k].performance].theatreHall == hall)
  {
    var r := DeletePerformances(db, set k | k in db.performances && db.performances[k].theatreHall == hall);
    r.(halls := map k | k in r.halls && k != hall :: r.halls[k])
  }

  /** Cascading deletes never leave a dangling reference or break a constraint. */
  lemma DeleteReservationsKeepsConsistent(db: Db, gone: set<Id>)
    requires Consistent(db)
    ensures Consistent(DeleteReservations(db, gone))
  {
    var r := DeleteReservations(db, gone);
    assert forall k :: k in r.tickets ==> HallOf(r, r.tickets[k].performance) == HallOf(db, db.tickets[k].performance);
  }

  lemma DeletePerformancesKeepsConsistent(db: Db, gone: set<Id>)
    requires Consistent(db)
    ensures Consistent(DeletePerformances(db, gone))
  {
    var r := DeletePerformances(db, gone);
    assert forall k :: k in r.tickets ==> HallOf(r, r.tickets[k].performance) == HallOf(db, db.tickets[k].performance);
  }

  lemma DeletePlayKeepsConsistent(db: Db, play: Id)
    requires Consistent(db)
    ensures Consistent(DeletePlay(db, play))
  {
    var gone := set k | k in db.performances && db.performances[k].play == play;
    DeletePerformancesKeepsConsistent(db, gone);
    var mid := DeletePerformances(db, gone);
    var r := DeletePlay(db, play);
    assert r == mid.(plays := map k | k in mid.plays && k != play :: mid.plays[k]);
    assert forall k :: k in r.tickets ==> HallOf(r, r.tickets[k].performance) == HallOf(mid, mid.tickets[k].performance);
  }

  lemma DeleteHallKeepsConsistent(db: Db, hall: Id)
    requires Consistent(db)
    ensures Consistent(DeleteHall(db, hall))
  {
    var gone := set k | k in db.performances && db.performances[k].theatreHall == hall;
    DeletePerformancesKeepsConsistent(db, gone);
    var mid := DeletePerformances(db, gone);
    var r := DeleteHall(db, hall);
    assert r == mid.(halls := map k | k in mid.halls && k != hall :: mid.halls[k]);
    forall k | k in r.tickets
      ensures HallOf(r, r.tickets[k].performance) == HallOf(mid, mid.tickets[k].performance)
    {
      assert r.tickets[k].performance in mid.performances;
    }
  }

  // ---------------------------------------------------------------------
  // Listing a table and the models' default orderings
  // ---------------------------------------------------------------------

  /** A row of a table together with its primary key. */
  datatype Entry<T> = Entry(id: Id, value: T)

  /** The rows of a table whose keys are below `bound`, in ascending key order. */
  function Rows<T(!new)>(m: map<Id, T>, bound: Id): (r: seq<Entry<T>>)
    ensures forall e :: e in r <==> e.id < bound && e.id in m && m[e.id] == e.value
    ensures forall i, j :: 0 <= i < j < |r| ==> r[i].id < r[j].id
    decreases bound
  {
    if bound == 0 then []
    else
      var k := bound - 1;
      Rows(m, k) + (if k in m then [Entry(k, m[k])] else [])
  }

  /** Ticket `ordering = ['row', 'seat']`. */
  predicate TicketBefore(a: Entry<Ticket>, b: Entry<Ticket>) {
    a.value.row < b.value.row || (a.value.row == b.value.row && a.value.seat <= b.value.seat)
  }

  /** Reservation `ordering = ['-created_at']`. */
  predicate ReservationBefore(a: Entry<Reservation>, b: Entry<Reservation>) {
    a.value.createdAt >= b.value.createdAt
  }

  /** Play `ordering = ['title']`. */
  predicate PlayBefore(a: Entry<Play>, b: Entry<Play>) {
    StrLe(a.value.title, b.value.title)
  }

  /** Performance `ordering = ['-show_time']`. */
  predicate PerformanceBefore(a: Entry<Performance>, b: Entry<Performance>) {
    a.value.showTime >= b.value.showTime
  }

  /** Ascending primary key (`order_by("id")`), a strict order. */
  predicate IdBefore<T>(a: Entry<T>, b: Entry<T>) {
    a.id < b.id
  }

  lemma OrderingsAreTotal()
    ensures TotalPreorder(TicketBefore)
    ensures TotalPreorder(ReservationBefore)
    ensures TotalPreorder(PerformanceBefore)
    ensures TotalPreorder(PlayBefore)
  {
    forall a: Entry<Play>, b: Entry<Play>
      ensures PlayBefore(a, b) || PlayBefore(b, a)
    {
      StrLeTotal(a.value.title, b.value.title);
    }
    forall a: Entry<Play>, b: Entry<Play>, c: Entry<Play> | PlayBefore(a, b) && PlayBefore(b, c)
      ensures PlayBefore(a, c)
    {
      StrLeTransitive(a.value.title, b.value.title, c.value.title);
    }
  }

  /** `Ticket.objects.all()`: every ticket, by row then seat. */
  function TicketsInOrder(tickets: seq<Entry<Ticket>>): (r: seq<Entry<Ticket>>)
    ensures multiset(r) == multiset(tickets)
    ensures SortedBy(r, TicketBefore)
  {
    OrderingsAreTotal();
    SortBy(tickets, TicketBefore)
  }

  /** `Reservation.objects.all()`: newest first. */
  function ReservationsInOrder(reservations: seq<Entry<Reservation>>): (r: seq<Entry<Reservation>>)
    ensures multiset(r) == multiset(reservations)
    ensures SortedBy(r, ReservationBefore)
  {
    OrderingsAreTotal();
    SortBy(reservations, ReservationBefore)
  }

  /** `Play.objects.all()`: by title. */
  function PlaysInOrder(plays: seq<Entry<Play>>): (r: seq<Entry<Play>>)
    ensures multiset(r) == multiset(plays)
    ensures SortedBy(r, PlayBefore)
  {
    OrderingsAreTotal();
    SortBy(plays, PlayBefore)
  }

  /** `Performance.objects.all()`: latest show first. */
  function PerformancesInOrder(performances: seq<Entry<Performance>>): (r: seq<Entry<Performance>>)
    ensures multiset(r) == multiset(performances)
    ensures SortedBy(r, PerformanceBefore)
  {
    OrderingsAreTotal();
    SortBy(performances, PerformanceBefore)
  }
}
