/**
 * The read side of the API: the query-string parsing of the play list
 * (`_params_to_ints`), the filters of the play and performance lists, the
 * `tickets_available` annotation with the list's `order_by("id")`, and the
 * owner-only reservation list.
 */
module Queries {
  import opened Wrappers
  import opened Text
  import opened Lists
  import opened Schema
  import opened Tickets
  import opened Reservations

  // ---------------------------------------------------------------------
  // `_params_to_ints`
  // ---------------------------------------------------------------------

  /**
   * `convert` applied to every piece, left to right; the first piece it
   * rejects stops the conversion and is the error (`int` raising).
   */
  function ConvertAll<T>(pieces: seq<string>, convert: string -> Option<T>): (r: Result<seq<T>, string>)
    ensures r.Success? ==> |r.value| == |pieces|
    ensures r.Success? ==> forall i :: 0 <= i < |pieces| ==> convert(pieces[i]) == Some(r.value[i])
    decreases |pieces|
  {
    if pieces == [] then Success([])
    else
      match convert(pieces[0])
      case None => Failure(pieces[0])
      case Some(n) =>
        var rest := ConvertAll(pieces[1..], convert);
        if rest.Failure? then Failure(rest.error)
        else
          assert forall i :: 1 <= i < |pieces| ==> pieces[i] == pieces[1..][i - 1];
          Success([n] + rest.value)
  }

  /** Piece `i` is the first one that `convert` rejects. */
  predicate FirstRejected<T>(pieces: seq<string>, convert: string -> Option<T>, i: int) {
    && 0 <= i < |pieces|
    && convert(pieces[i]).None?
    && forall j :: 0 <= j < i ==> convert(pieces[j]).Some?
  }

  /**
   * The conversion fails exactly when some piece is rejected, and then it
   * reports the first such piece.
   */
  lemma {:induction false} ConvertAllFailure<T>(pieces: seq<string>, convert: string -> Option<T>)
    ensures ConvertAll(pieces, convert).Failure? <==> exists i :: FirstRejected(pieces, convert, i)
    ensures ConvertAll(pieces, convert).Failure? ==>
      exists i :: FirstRejected(pieces, convert, i) && pieces[i] == ConvertAll(pieces, convert).error
    decreases |pieces|
  {
    if ConvertAll(pieces, convert).Failure? {
      if convert(pieces[0]).None? {
        assert FirstRejected(pieces, convert, 0);
      } else {
        ConvertAllFailure(pieces[1..], convert);
        var i :| FirstRejected(pieces[1..], convert, i) && pieces[1..][i] == ConvertAll(pieces[1..], convert).error;
        assert forall j :: 1 <= j < |pieces| ==> pieces[j] == pieces[1..][j - 1];
        assert FirstRejected(pieces, convert, i + 1);
      }
    }
  }

  /** When every piece converts, the conversion yields exactly those values. */
  lemma {:induction false} ConvertAllOfConverted<T>(pieces: seq<string>, convert: string -> Option<T>, values: seq<T>)
    requires |values| == |pieces|
    requires forall i :: 0 <= i < |pieces| ==> convert(pieces[i]) == Some(values[i])
    ensures ConvertAll(pieces, convert) == Success(values)
    decreases |pieces|
  {
    if pieces != [] {
      assert forall i :: 0 <= i < |pieces| - 1 ==> pieces[1..][i] == pieces[i + 1] && values[1..][i] == values[i + 1];
      ConvertAllOfConverted(pieces[1..], convert, values[1..]);
      assert [values[0]] + values[1..] == values;
    }
  }

  /** `[int(str_id) for str_id in qs.split(",")]`. */
  function ParamsToInts(qs: string): (r: Result<seq<int>, string>)
    ensures r.Success? ==> |r.value| == Occurrences(qs, ',') + 1
  {
    ConvertAll(Split(qs, ','), ParseInt)
  }

  /** The list is rejected exactly when one of its pieces is not an integer, and that piece is reported. */
  lemma ParamsToIntsFailure(qs: string)
    ensures ParamsToInts(qs).Failure? <==> exists i :: FirstRejected(Split(qs, ','), ParseInt, i)
    ensures ParamsToInts(qs).Failure? ==>
      exists i :: FirstRejected(Split(qs, ','), ParseInt, i) && Split(qs, ',')[i] == ParamsToInts(qs).error
  {
    var pieces := Split(qs, ',');
    assert ParamsToInts(qs) == ConvertAll(pieces, ParseInt);
    ConvertAllFailure(pieces, ParseInt);
    assert ConvertAll(pieces, ParseInt).Failure? ==> exists i :: FirstRejected(pieces, ParseInt, i);
    assert ParamsToInts(qs).Failure? ==> exists i :: FirstRejected(pieces, ParseInt, i);
    assert ParamsToInts(qs).Failure? ==> exists i :: FirstRejected(Split(qs, ','), ParseInt, i);
  }

  /** The decimal rendering of each id. */
  function ShowAll(ids: seq<int>): (r: seq<string>)
    ensures |r| == |ids|
    ensures forall i :: 0 <= i < |ids| ==> r[i] == Show(ids[i])
  {
    seq(|ids|, i requires 0 <= i < |ids| => Show(ids[i]))
  }

  /** A comma-separated list of integers parses back to exactly those integers. */
  lemma ParamsToIntsRoundTrip(ids: seq<int>)
    requires ids != []
    requires forall i :: 0 <= i < |ids| ==> Showable(ids[i])
    ensures ParamsToInts(Join(ShowAll(ids), ',')) == Success(ids)
  {
    var shown := ShowAll(ids);
    forall i | 0 <= i < |shown|
      ensures ',' !in shown[i] && ParseInt(shown[i]) == Some(ids[i])
    {
      ShowHasNoComma(ids[i]);
      ParseIntOfShow(ids[i]);
    }
    SplitJoin(shown, ',');
    ConvertAllOfConverted(shown, ParseInt, ids);
  }

  lemma ParamsToIntsExample()
    ensures ParamsToInts("1,2,3") == Success([1, 2, 3])
  {
    ParamsToIntsRoundTrip([1, 2, 3]);
    ShownOneTwoThree();
  }

  lemma ShownOneTwoThree()
    ensures Join(ShowAll([1, 2, 3]), ',') == "1,2,3"
  {
    assert Show(1) == "1" && Show(2) == "2" && Show(3) == "3";
    assert ShowAll([1, 2, 3]) == ["1", "2", "3"];
    assert Join(["2", "3"], ',') == "2,3";
  }

  /** An empty piece is not an integer: `""`, a leading comma and `"1,,2"` fail. */
  lemma ParamsToIntsRejectsEmptyPiece(qs: string, i: nat)
    requires i < |Split(qs, ',')| && Split(qs, ',')[i] == []
    ensures ParamsToInts(qs).Failure?
  {
    ParseIntRejectsBlank([]);
  }

  /** A character that is neither part of an integer literal nor a comma makes the whole list fail. */
  lemma ParamsToIntsRejectsForeignChar(qs: string, k: nat)
    requires k < |qs|
    requires !IsSpace(qs[k]) && !IsNumeralChar(qs[k]) && qs[k] !in "+-,"
    ensures ParamsToInts(qs).Failure?
  {
    var pieces := Split(qs, ',');
    JoinSplit(qs, ',');
    CharOfJoin(pieces, ',', k);
    var i, j :| 0 <= i < |pieces| && 0 <= j < |pieces[i]| && pieces[i][j] == qs[k];
    ParseIntRejectsForeignChar(pieces[i], j);
  }

  // ---------------------------------------------------------------------
  // The play list
  // ---------------------------------------------------------------------

  /** A query parameter counts only when it is present and non-empty (`if title:`). */
  predicate Given(p: Option<string>) {
    p.Some? && p.value != ""
  }

  /** The raw `title`, `genres` and `actors` query parameters. */
  datatype PlayQuery = PlayQuery(title: Option<string>, genres: Option<string>, actors: Option<string>)

  /** The parsed filters; `None` means the filter is not applied. */
  datatype PlayFilter = PlayFilter(title: Option<string>, genres: Option<seq<int>>, actors: Option<seq<int>>)

  /** An optional id list: absent stays absent, a given one goes through `_params_to_ints`. */
  function IdsParam(p: Option<string>): (r: Result<Option<seq<int>>, string>)
    ensures r.Failure? <==> Given(p) && exists i :: FirstRejected(Split(p.value, ','), ParseInt, i)
    ensures r.Success? ==> (r.value.Some? <==> Given(p))
    ensures r.Success? && Given(p) ==> |r.value.value| == Occurrences(p.value, ',') + 1
  {
    if !Given(p) then Success(None)
    else
      ParamsToIntsFailure(p.value);
      match ParamsToInts(p.value)
      case Failure(e) => Failure(e)
      case Success(ids) => Success(Some(ids))
  }

  /** The genre ids are parsed before the actor ids, so a bad genre list is the one reported. */
  function ParsePlayQuery(q: PlayQuery): (r: Result<PlayFilter, string>)
    ensures r.Success? <==> IdsParam(q.genres).Success? && IdsParam(q.actors).Success?
    ensures IdsParam(q.genres).Failure? ==> r == Failure(IdsParam(q.genres).error)
    ensures r.Success? ==>
      && (r.value.title.Some? <==> Given(q.title))
      && (Given(q.title) ==> r.value.title == q.title)
      && r.value.genres == IdsParam(q.genres).value
      && r.value.actors == IdsParam(q.actors).value
  {
    match IdsParam(q.genres)
    case Failure(e) => Failure(e)
    case Success(genres) =>
      match IdsParam(q.actors)
      case Failure(e) => Failure(e)
      case Success(actors) =>
        Success(PlayFilter(if Given(q.title) then q.title else None, genres, actors))
  }

  /**
   * `title__icontains`, `genres__id__in` and `actors__id__in`, each applied
   * only when given and all of them together.
   */
  predicate PlayKept(play: Play, f: PlayFilter) {
    && (f.title.Some? ==> ContainsIgnoringCase(play.title, f.title.value))
    && (f.genres.Some? ==> exists g :: g in play.genres && g in f.genres.value)
    && (f.actors.Some? ==> exists a :: a in play.actors && a in f.actors.value)
  }

  /**
   * `PlayViewSet.get_queryset` listed: the plays the filters keep, each once
   * (`distinct()`), by title.
   */
  function PlayList(db: Db, q: PlayQuery): (r: Result<seq<Entry<Play>>, string>)
    requires KeysBelow(db.plays, db.next.play)
    ensures r.Success? <==> ParsePlayQuery(q).Success?
    ensures r.Failure? ==> r.error == ParsePlayQuery(q).error
    ensures r.Success? ==> forall e :: e in r.value <==>
      e.id in db.plays && db.plays[e.id] == e.value && PlayKept(e.value, ParsePlayQuery(q).value)
    ensures r.Success? ==> Distinct(r.value) && SortedBy(r.value, PlayBefore)
  {
    match ParsePlayQuery(q)
    case Failure(e) => Failure(e)
    case Success(f) =>
      var sorted := PlaysInOrder(Rows(db.plays, db.next.play));
      var keep := (e: Entry<Play>) => PlayKept(e.value, f);
      Listed(db.plays, db.next.play, sorted, keep, PlayBefore);
      var kept := Filter(sorted, keep);
      Success(kept)
  }

  /**
   * A table listed in some order and then filtered holds exactly the rows
   * the filter keeps, each once, still in that order.
   */
  lemma Listed<T(!new)>(m: map<Id, T>, bound: Id, sorted: seq<Entry<T>>, keep: Entry<T> -> bool, le: (Entry<T>, Entry<T>) -> bool)
    requires multiset(sorted) == multiset(Rows(m, bound))
    requires SortedBy(sorted, le)
    ensures forall e :: e in Filter(sorted, keep) <==> e.id < bound && e.id in m && m[e.id] == e.value && keep(e)
    ensures Distinct(Filter(sorted, keep)) && SortedBy(Filter(sorted, keep), le)
  {
    var all := Rows(m, bound);
    assert Distinct(all);
    forall e
      ensures e in sorted <==> e in all
    {
      assert e in sorted <==> e in multiset(sorted);
      assert e in all <==> e in multiset(all);
    }
    PermutationKeepsDistinct(all, sorted);
    FilterKeepsDistinct(sorted, keep);
    FilterKeepsOrder(sorted, keep, le);
  }

  /** Without any filter every play is listed. */
  lemma PlayListUnfiltered(db: Db, title: Option<string>)
    requires KeysBelow(db.plays, db.next.play)
    requires !Given(title)
    ensures PlayList(db, PlayQuery(title, None, None)).Success?
    ensures forall k :: k in db.plays ==> Entry(k, db.plays[k]) in PlayList(db, PlayQuery(title, None, None)).value
  {
  }

  /** Filtering by a list of genre ids keeps exactly the plays that have one of those genres. */
  lemma PlayListByGenres(db: Db, ids: seq<int>)
    requires KeysBelow(db.plays, db.next.play)
    requires ids != []
    requires forall i :: 0 <= i < |ids| ==> Showable(ids[i])
    ensures var r := PlayList(db, PlayQuery(None, Some(Join(ShowAll(ids), ',')), None));
      && r.Success?
      && forall e :: e in r.value <==>
           e.id in db.plays && db.plays[e.id] == e.value && exists g :: g in e.value.genres && g in ids
  {
    ParamsToIntsRoundTrip(ids);
    assert Join(ShowAll(ids), ',') != [] by {
      assert Show(ids[0]) != [];
      assert |Join(ShowAll(ids), ',')| >= |ShowAll(ids)[0]|;
    }
  }

  // ---------------------------------------------------------------------
  // The seats taken for a performance
  // ---------------------------------------------------------------------

  /**
   * `taken_seats` of the performance detail: the (row, seat) of each ticket
   * sold for the performance, in the ticket ordering, row then seat.
   */
  function TakenSeats(db: Db, performance: Id): (r: seq<(int, int)>)
    requires KeysBelow(db.tickets, db.next.ticket)
    ensures forall row, seat :: (row, seat) in r <==> Taken(db.tickets, TicketAttrs(row, seat, performance))
    ensures forall i, j :: 0 <= i < j < |r| ==> r[i].0 < r[j].0 || (r[i].0 == r[j].0 && r[i].1 <= r[j].1)
    ensures SeatsUnique(db.tickets) ==> forall i, j :: 0 <= i < j < |r| ==> r[i] != r[j]
  {
    var sorted := TicketsInOrder(Rows(db.tickets, db.next.ticket));
    var keep := (e: Entry<Ticket>) => e.value.performance == performance;
    Listed(db.tickets, db.next.ticket, sorted, keep, TicketBefore);
    var sold := Filter(sorted, keep);
    SeatsOfSold(db, performance, sold);
    SeatsOf(sold)
  }

  /** The (row, seat) of each listed ticket, in listing order. */
  function SeatsOf(sold: seq<Entry<Ticket>>): (r: seq<(int, int)>)
    ensures |r| == |sold|
    ensures forall i :: 0 <= i < |sold| ==> r[i] == Cell(sold[i].value)
  {
    seq(|sold|, i requires 0 <= i < |sold| => Cell(sold[i].value))
  }

  /** The seats of a performance's sold tickets, listed without repeats in the ticket order. */
  lemma SeatsOfSold(db: Db, performance: Id, sold: seq<Entry<Ticket>>)
    requires KeysBelow(db.tickets, db.next.ticket)
    requires forall e :: e in sold <==> e.id < db.next.ticket && e.id in db.tickets && db.tickets[e.id] == e.value && e.value.performance == performance
    requires Distinct(sold) && SortedBy(sold, TicketBefore)
    ensures var r := SeatsOf(sold);
      && (forall row, seat :: (row, seat) in r <==> Taken(db.tickets, TicketAttrs(row, seat, performance)))
      && (forall i, j :: 0 <= i < j < |r| ==> r[i].0 < r[j].0 || (r[i].0 == r[j].0 && r[i].1 <= r[j].1))
      && (SeatsUnique(db.tickets) ==> forall i, j :: 0 <= i < j < |r| ==> r[i] != r[j])
  {
    var r := SeatsOf(sold);
    forall row, seat
      ensures (row, seat) in r <==> Taken(db.tickets, TicketAttrs(row, seat, performance))
    {
      if (row, seat) in r {
        var i :| 0 <= i < |r| && r[i] == (row, seat);
        assert sold[i] in sold;
        assert db.tickets[sold[i].id].Attrs() == TicketAttrs(row, seat, performance);
      }
      if Taken(db.tickets, TicketAttrs(row, seat, performance)) {
        var k :| k in db.tickets && db.tickets[k].Attrs() == TicketAttrs(row, seat, performance);
        assert Entry(k, db.tickets[k]) in sold;
        var i :| 0 <= i < |sold| && sold[i] == Entry(k, db.tickets[k]);
        assert r[i] == (row, seat);
      }
    }
    if SeatsUnique(db.tickets) {
      forall i, j | 0 <= i < j < |r|
        ensures r[i] != r[j]
      {
        assert sold[i] in sold && sold[j] in sold;
        assert sold[i] != sold[j];
      }
    }
  }

  /** After a reservation commits, a performance shows as taken its old seats and the ones just requested for it. */
  lemma TakenSeatsAfterReserve(db: Db, user: Id, now: Instant, requests: seq<TicketAttrs>, performance: Id)
    requires KeysIssued(db)
    ensures var after := Reserved(db, user, now, requests);
      && KeysBelow(after.tickets, after.next.ticket)
      && forall row, seat :: (row, seat) in TakenSeats(after, performance) <==>
           (row, seat) in TakenSeats(db, performance) || TicketAttrs(row, seat, performance) in requests
  {
    var after := Reserved(db, user, now, requests);
    ReservedTickets(db, user, now, requests);
    forall row, seat
      ensures (row, seat) in TakenSeats(after, performance) <==>
              (row, seat) in TakenSeats(db, performance) || TicketAttrs(row, seat, performance) in requests
    {
      TakenDuringBatch(db, user, now, requests, TicketAttrs(row, seat, performance));
    }
  }

  // ---------------------------------------------------------------------
  // The performance list
  // ---------------------------------------------------------------------

  /** The `date` parameter (already read as a day number; `None` when absent or empty) and the raw `play` parameter. */
  datatype PerformanceQuery = PerformanceQuery(date: Option<int>, play: Option<string>)

  /** A listed performance with its `tickets_available` annotation. */
  datatype PerformanceRow = PerformanceRow(id: Id, performance: Performance, ticketsAvailable: int)

  /** `show_time__date=date` and `play_id=int(play)`, each when given. */
  predicate PerformanceKept(p: Performance, date: Option<int>, play: Option<int>) {
    && (date.Some? ==> DateOf(p.showTime) == date.value)
    && (play.Some? ==> p.play == play.value)
  }

  /** Every performance of a listing has a hall. */
  ghost predicate Hosted(db: Db, entries: seq<Entry<Performance>>) {
    forall i :: 0 <= i < |entries| ==> HallOf(db, entries[i].id).Some?
  }

  /** The rows of the listing, each annotated with its free seats. */
  function Annotated(db: Db, entries: seq<Entry<Performance>>): (r: seq<PerformanceRow>)
    requires Hosted(db, entries)
    ensures |r| == |entries|
    ensures forall i :: 0 <= i < |entries| ==>
      r[i] == PerformanceRow(entries[i].id, entries[i].value, TicketsAvailable(db, entries[i].id))
  {
    seq(|entries|, i requires 0 <= i < |entries| && Hosted(db, entries) =>
      PerformanceRow(entries[i].id, entries[i].value, TicketsAvailable(db, entries[i].id)))
  }

  /**
   * `PerformanceViewSet.get_queryset` listed: the performances the filters
   * keep, by ascending id, each with the seats its hall has minus the
   * tickets sold for it. A `play` that is not an integer fails.
   */
  function PerformanceList(db: Db, q: PerformanceQuery): (r: Result<seq<PerformanceRow>, string>)
    requires Consistent(db)
    ensures r.Failure? <==> Given(q.play) && ParseInt(q.play.value).None?
    ensures r.Failure? ==> r.error == q.play.value
    ensures r.Success? ==> forall i, j :: 0 <= i < j < |r.value| ==> r.value[i].id < r.value[j].id
    ensures r.Success? ==> forall row :: row in r.value <==>
      && row.id in db.performances
      && row.performance == db.performances[row.id]
      && PerformanceKept(row.performance, q.date, if Given(q.play) then ParseInt(q.play.value) else None)
      && HallOf(db, row.id).Some?
      && row.ticketsAvailable == TicketsAvailable(db, row.id)
  {
    var play := if Given(q.play) then ParseInt(q.play.value) else None;
    if Given(q.play) && play.None? then Failure(q.play.value)
    else
      var all := Rows(db.performances, db.next.performance);
      var keep := (e: Entry<Performance>) => PerformanceKept(e.value, q.date, play);
      FilterKeepsOrder(all, keep, IdBefore);
      var kept := Filter(all, keep);
      assert Hosted(db, kept) by {
        forall i | 0 <= i < |kept|
          ensures HallOf(db, kept[i].id).Some?
        {
          assert kept[i] in all;
        }
      }
      var rows := Annotated(db, kept);
      forall row
        ensures row in rows <==> Entry(row.id, row.performance) in kept && row.ticketsAvailable == TicketsAvailable(db, row.id)
      {
        if row in rows {
          var i :| 0 <= i < |rows| && rows[i] == row;
          assert kept[i] == Entry(row.id, row.performance);
        }
        if Entry(row.id, row.performance) in kept && row.ticketsAvailable == TicketsAvailable(db, row.id) {
          var i :| 0 <= i < |kept| && kept[i] == Entry(row.id, row.performance);
          assert rows[i] == row;
        }
      }
      Success(rows)
  }

  /** A listed row as it reads once one more ticket of performance `sold` is sold. */
  function AfterSale(row: PerformanceRow, sold: Id): PerformanceRow {
    row.(ticketsAvailable := row.ticketsAvailable - if row.id == sold then 1 else 0)
  }

  /**
   * Selling a seat lists the same performances in the same order; the
   * availability of that performance drops by one and no other changes.
   */
  lemma PerformanceListAfterSale(db: Db, attrs: TicketAttrs, reservation: Id, q: PerformanceQuery)
    requires Consistent(db)
    requires SaveTicket(db, attrs, reservation).Success?
    ensures var after := SaveTicket(db, attrs, reservation).value;
      PerformanceList(after, q).Success? == PerformanceList(db, q).Success?
    ensures var after := SaveTicket(db, attrs, reservation).value;
      PerformanceList(db, q).Success? ==>
        && |PerformanceList(after, q).value| == |PerformanceList(db, q).value|
        && forall i :: 0 <= i < |PerformanceList(db, q).value| ==>
             PerformanceList(after, q).value[i] == AfterSale(PerformanceList(db, q).value[i], attrs.performance)
  {
    var after := SaveTicket(db, attrs, reservation).value;
    assert after.performances == db.performances && after.halls == db.halls && after.next.performance == db.next.performance;
    if PerformanceList(db, q).Success? {
      var rows := PerformanceList(db, q).value;
      var rows' := PerformanceList(after, q).value;
      assert |rows'| == |rows|;
      forall i | 0 <= i < |rows|
        ensures rows'[i] == AfterSale(rows[i], attrs.performance)
      {
        SaveLowersAvailability(db, attrs, reservation, rows[i].id);
      }
    }
  }

  // ---------------------------------------------------------------------
  // The reservation list
  // ---------------------------------------------------------------------

  /** `ReservationViewSet.get_queryset` listed: the requester's own reservations, newest first. */
  function ReservationList(db: Db, user: Id): (r: seq<Entry<Reservation>>)
    requires KeysBelow(db.reservations, db.next.reservation)
    ensures forall e :: e in r <==> e.id in db.reservations && db.reservations[e.id] == e.value && e.value.user == user
    ensures Distinct(r) && SortedBy(r, ReservationBefore)
  {
    var sorted := ReservationsInOrder(Rows(db.reservations, db.next.reservation));
    var keep := (e: Entry<Reservation>) => e.value.user == user;
    Listed(db.reservations, db.next.reservation, sorted, keep, ReservationBefore);
    Filter(sorted, keep)
  }

  /**
   * A committed reservation shows up in its requester's list and in nobody
   * else's; every list otherwise stays as it was.
   */
  lemma ReservationListAfterReserve(db: Db, user: Id, now: Instant, requests: seq<TicketAttrs>, viewer: Id)
    requires KeysIssued(db)
    ensures var after := Reserved(db, user, now, requests);
      && KeysBelow(after.reservations, after.next.reservation)
      && forall e :: e in ReservationList(after, viewer) <==>
           || e in ReservationList(db, viewer)
           || (viewer == user && e == Entry(db.next.reservation, Reservation(now, user)))
  {
    ReservedReservation(db, user, now, requests);
  }
}
