# Theatre booking core in Dafny

This project models the seat-booking core of a Django REST theatre service.
Plays, halls and performances are scheduled. Users reserve seats by posting a
reservation with a list of tickets. Admins replace a performance's props. The
lists of plays, performances and reservations are filtered and ordered.

The database is the value `Schema.Db`. It has one map per table, keyed by
primary key, plus each table's auto-increment counter and the prop ↔
performance link rows. `Schema.Consistent` states the constraints the
squashed initial migration declares, plus one invariant the application
keeps:

- foreign keys;
- `unique_together (row, seat, performance)`;
- unique genre names;
- keys were issued by their sequence;
- a ticket's seat lies in its hall. The migration declares plain integer
  `row` and `seat` columns; this invariant is kept by the ticket validation
  in the serializer and in `Ticket`, not by the database.

`Booking.Store` is the database as a mutable object. Each method is one request
and runs as one transaction. It either commits a state that is still
`Consistent` or reports an error and leaves the state unchanged.

The modules are:

- `Wrappers`: `Option`, `Result`, `Outcome`.
- `Text`: Python's `str.split`, `int()` and `icontains`.
- `Lists`: sort, filter, distinct.
- `Schema`: tables, constraints, cascades, orderings.
- `Tickets`: seat validation, storing one ticket, availability.
- `Reservations`: the atomic reservation.
- `Props`: the performance update.
- `Booking`: the store.
- `Queries`: the list endpoints.

Users are plain ids; the authentication layer is not part of this model.
Request times (`created_at`) are a parameter, the model's stand-in for the
clock.

## Model

| member | source | states |
|---|---|---|
| Tickets.ValidateSeat | theatre/serializers.py:122-136 | No error exactly when 1 ≤ row ≤ rows and 1 ≤ seat ≤ seats_in_row. Otherwise the error names the bad value and its inclusive range, the row before the seat. The bound 1 and the row-first order are this model's reading of `Ticket.validate_ticket` (see Left out). |
| Tickets.ValidateSeatInTenByTwentyHall | theatre/tests/test_ticket_api.py:38-62 | In the 10 × 20 hall, (5, 10) is accepted and (11, 10) and (5, 21) are refused, as the tests require. The refusals are RowOutOfRange(11, 1, 10) and SeatOutOfRange(21, 1, 20) under the bounds the model assumes. |
| Tickets.ValidateTicket | theatre/serializers.py:122-136 | Validation succeeds iff the performance's hall exists and the seat lies in it. On success it returns the attributes unchanged (`return data`). Otherwise it returns the seat error. |
| Tickets.CheckTicket | theatre/serializers.py:117-136 | One ticket of a request passes `is_valid` iff it could be stored right now: its performance exists, the seat is in the hall and not sold. A sold seat is reported as SeatAlreadyTaken (the `unique_together` validator); any other error is `validate`'s. |
| Tickets.SaveTicket | theatre/serializers.py:216 | The insert succeeds iff the seat is valid and not yet taken (`unique_together`) and the reservation exists. A success adds exactly that ticket under the next key. A range error wins over a conflict. Consistency is preserved. |
| Tickets.SecondClaimOfSeatFails | theatre/migrations/0001_initial_squashed_0007_alter_prop_performance.py:90 | Storing the same (row, seat, performance) a second time fails with SeatAlreadyTaken. |
| Tickets.GridSize | theatre/views.py:151-156 | A hall of rows × seats_in_row offers exactly rows * seats_in_row distinct seats. |
| Tickets.SoldWithinHall | theatre/views.py:151-156 | Under the constraints, a performance never has more tickets than its hall has seats. |
| Tickets.AvailabilityNonNegative | theatre/views.py:151-156 | `tickets_available` is never negative when the hall's size is not negative. |
| Tickets.SaveLowersAvailability | theatre/views.py:151-156 | Selling one seat lowers that performance's availability by exactly 1 and leaves every other performance's unchanged. |
| Tickets.IssuedInRequestOrder | theatre/serializers.py:215-216 | A batch's tickets get consecutive keys. The ticket under key first + i is exactly the one for request i, in the new reservation. |
| Tickets.IssuedCount | theatre/views.py:151-156 | Adding a batch adds to each performance's ticket count exactly the number of requests for that performance. |
| Tickets.AdmissiblePrefix | theatre/serializers.py:212-217 | When a whole batch could be stored, so can every prefix of it. |
| Tickets.ValidateTickets | theatre/serializers.py:188-189 | `is_valid` on the ticket list reports every ticket that fails, with its position, in request order, and only those. The list is empty iff every ticket could be stored against the tables before the request. |
| Reservations.ReservedNothing | theatre/serializers.py:212-217 | An empty ticket list still creates the reservation. |
| Reservations.ReservedStep | theatre/serializers.py:215-216 | The committed state for i + 1 requests is the state for i requests with ticket i inserted. |
| Reservations.TakenDuringBatch | theatre/serializers.py:215-216 | During the batch a seat is taken iff it was sold before or claimed by an earlier request. |
| Reservations.PlaceableDuringBatch | theatre/serializers.py:215-216 | Request i can be stored iff it could be stored before the transaction and no earlier request claims its seat. |
| Reservations.AdmissibleExtend | theatre/serializers.py:215-216 | A prefix extended by one request can commit iff the prefix can and that request can be stored. |
| Reservations.ReservedKeepsConsistent | theatre/serializers.py:212-217 | Committing a batch that can commit keeps every database constraint. |
| Reservations.ReservedReservation | theatre/views.py:231-235 | The commit adds one fresh reservation, owned by the requester and created at the request time. The other tables are unchanged. |
| Reservations.ReservedTickets | theatre/serializers.py:212-217 | Old tickets are kept. Exactly len(tickets) new ones are added, in request order, each referencing the new reservation. |
| Reservations.ReservedTicketsOfNew | theatre/serializers.py:212-217 | The new reservation owns exactly len(tickets) tickets, and none for an empty list. |
| Reservations.ReservedAvailability | theatre/views.py:151-156 | After a reservation, each performance's availability drops by the number of its requested seats. |
| Reservations.DuplicateNotAdmissible | theatre/migrations/0001_initial_squashed_0007_alter_prop_performance.py:90 | A batch that claims one seat twice cannot commit. |
| Reservations.RejectionDetermined | theatre/serializers.py:188-217 | A refused batch could not have committed. The refusal is a list of validation errors iff some ticket is invalid or already sold, and only one refusal fits a given batch. |
| Reservations.OutOfRangeBatchRefused | theatre/serializers.py:188-217 | In a 20 × 20 hall, [(5,10), (100,100)] cannot commit. Its refusal is validation with the single error RowOutOfRange(100, 1, 20) at index 1, and no other refusal fits it. |
| Reservations.ValidationBeforeInsert | theatre/serializers.py:188-217 | In a 10 × 20 hall, [(1,1), (1,1), (11,1)] is refused by validation for its third ticket alone, and no other refusal fits it. The repeated seat is never reached. |
| Reservations.RepeatedSeatStoppedOnInsert | theatre/migrations/0001_initial_squashed_0007_alter_prop_performance.py:90 | Two requests for the same free seat pass validation (no errors), and the batch's only refusal is SeatClaimedTwice at the second request. |
| Booking.Store.CreateReservation | theatre/serializers.py:188-217 | All or nothing: it commits iff every request can be stored and no seat repeats, giving the state Reserved. Otherwise the store is unchanged. The error lists every ticket that fails validation against the tables before the request, or, when all pass, names the first request that repeats an earlier seat of the batch. |
| Booking.Store.InsertTicket | theatre/migrations/0001_initial_squashed_0007_alter_prop_performance.py:90 | A single ticket insert succeeds iff its seat is valid and free, and the reservation exists. A repeated seat fails and leaves the store unchanged. |
| Booking.Store.constructor | theatre/migrations/0001_initial_squashed_0007_alter_prop_performance.py:17-101 | The store starts as the empty, consistent database. |
| Booking.Store.AddActor | theatre/migrations/0001_initial_squashed_0007_alter_prop_performance.py:18-25 | A new actor is stored under the next fresh key, and nothing else changes. |
| Booking.Store.AddHall | theatre/migrations/0001_initial_squashed_0007_alter_prop_performance.py:44-52 | A new hall is stored under the next fresh key with any integer size, and nothing else changes. |
| Booking.Store.AddGenre | theatre/migrations/0001_initial_squashed_0007_alter_prop_performance.py:30 | Fails iff a genre of that name exists. The store is then unchanged. |
| Booking.Store.AddPlay | theatre/migrations/0001_initial_squashed_0007_alter_prop_performance.py:53-66 | A play is stored iff its genres and actors exist. |
| Booking.Store.AddPerformance | theatre/migrations/0001_initial_squashed_0007_alter_prop_performance.py:67-78 | A performance is stored iff its play and hall exist. |
| Booking.Store.UpdatePerformanceProps | theatre/serializers.py:175-185 | It commits exactly what PerformanceUpdate computes, or rolls back with its error. |
| Booking.Store.DeleteReservation | theatre/migrations/0001_initial_squashed_0007_alter_prop_performance.py:86 | The store becomes Schema.DeleteReservation and stays consistent. |
| Booking.Store.DeleteUser | theatre/migrations/0001_initial_squashed_0007_alter_prop_performance.py:38 | The store becomes Schema.DeleteUser and stays consistent. |
| Booking.Store.DeletePerformance | theatre/migrations/0001_initial_squashed_0007_alter_prop_performance.py:85 | The store becomes Schema.DeletePerformance and stays consistent. |
| Booking.Store.DeletePlay | theatre/migrations/0001_initial_squashed_0007_alter_prop_performance.py:72 | The store becomes Schema.DeletePlay and stays consistent. |
| Booking.Store.DeleteHall | theatre/migrations/0001_initial_squashed_0007_alter_prop_performance.py:73 | The store becomes Schema.DeleteHall and stays consistent. |
| Schema.EmptyDbConsistent | theatre/migrations/0001_initial_squashed_0007_alter_prop_performance.py:17-101 | A freshly migrated database satisfies every constraint. |
| Schema.DeleteReservations | theatre/migrations/0001_initial_squashed_0007_alter_prop_performance.py:86 | Removes exactly the given reservations and exactly the tickets that reference them. Nothing else changes. |
| Schema.DeleteReservation | theatre/migrations/0001_initial_squashed_0007_alter_prop_performance.py:86 | The reservation and exactly its tickets are gone. |
| Schema.DeleteUser | theatre/migrations/0001_initial_squashed_0007_alter_prop_performance.py:38 | Exactly the user's reservations go. Remaining tickets are unchanged, and every ticket of the user's reservations goes. |
| Schema.DeletePerformances | theatre/migrations/0001_initial_squashed_0007_alter_prop_performance.py:85 | Removes exactly those performances, their tickets and their prop links. Nothing else changes. |
| Schema.DeletePerformance | theatre/migrations/0001_initial_squashed_0007_alter_prop_performance.py:85 | The performance and exactly its tickets are gone. |
| Schema.DeletePlay | theatre/migrations/0001_initial_squashed_0007_alter_prop_performance.py:72 | The play, exactly its performances and exactly their tickets are gone. |
| Schema.DeleteHall | theatre/migrations/0001_initial_squashed_0007_alter_prop_performance.py:73 | The hall, exactly its performances and exactly their tickets are gone. |
| Schema.DeleteReservationsKeepsConsistent | theatre/migrations/0001_initial_squashed_0007_alter_prop_performance.py:86 | Cascading from reservations keeps every constraint. |
| Schema.DeletePerformancesKeepsConsistent | theatre/migrations/0001_initial_squashed_0007_alter_prop_performance.py:85 | Cascading from performances keeps every constraint. |
| Schema.DeletePlayKeepsConsistent | theatre/migrations/0001_initial_squashed_0007_alter_prop_performance.py:72 | Deleting a play keeps every constraint. |
| Schema.DeleteHallKeepsConsistent | theatre/migrations/0001_initial_squashed_0007_alter_prop_performance.py:73 | Deleting a hall keeps every constraint. |
| Schema.OrderingsAreTotal | theatre/migrations/0001_initial_squashed_0007_alter_prop_performance.py:41 | The four default orderings are total preorders: -created_at, title, -show_time and (row, seat). |
| Schema.TicketsInOrder | theatre/migrations/0001_initial_squashed_0007_alter_prop_performance.py:89 | Tickets are listed as a permutation of the input, sorted by row and then seat. |
| Schema.ReservationsInOrder | theatre/migrations/0001_initial_squashed_0007_alter_prop_performance.py:41 | Reservations are listed as a permutation, newest first. |
| Schema.PlaysInOrder | theatre/migrations/0001_initial_squashed_0007_alter_prop_performance.py:64 | Plays are listed as a permutation, by title. |
| Schema.PerformancesInOrder | theatre/migrations/0001_initial_squashed_0007_alter_prop_performance.py:76 | Performances are listed as a permutation, latest show first. This is the model default, which every listing in the core overrides with `order_by("id")`. |
| Props.FindProp | theatre/serializers.py:182 | The lookup finds a prop of that name when there is one, and only then. |
| Props.GetOrCreateProp | theatre/serializers.py:182 | It fails (MultipleObjectsReturned) iff two or more props have the name. Otherwise it returns the only prop of that name, creating it if there was none. It keeps the old props, adds at most one, and reuses an existing prop. |
| Props.AttachStep | theatre/serializers.py:181-183 | One more get-or-create and `add` keeps the loop's invariant over the names handled so far. |
| Props.AttachAllFailureSticks | theatre/serializers.py:181-183 | Once a name fails, the whole loop fails with that error. |
| Props.AttachAllSound | theatre/serializers.py:181-183 | The loop succeeds iff no requested name has two props. It then keeps the old props and adds at most len(names). Each name ends with exactly one prop, existing ones are reused, and the links are exactly the requested ones. On failure it names a requested name with two or more props. |
| Props.AttachedNamesExact | theatre/serializers.py:180-183 | After clearing, the performance's linked prop names are exactly the requested names. |
| Props.PerformanceUpdateOutcome | theatre/serializers.py:175-185 | The update succeeds iff the performance exists, props were sent and no requested name has two props. Otherwise it reports which of those failed. |
| Props.PerformanceUpdateSchedule | theatre/serializers.py:179 | Only show_time of this performance changes, and only when given. Other performances and all other tables are unchanged. |
| Props.PerformanceUpdateProps | theatre/serializers.py:180-183 | The linked names are exactly the requested ones. Other performances' links are unchanged and existing props are kept and reused. The prop count grows by at most len(names). |
| Props.PerformanceUpdateKeepsConsistent | theatre/serializers.py:175-185 | A successful update keeps every database constraint. |
| Queries.ConvertAll | theatre/views.py:64 | On success there is one integer per piece, and piece i converts to value i. |
| Queries.ConvertAllFailure | theatre/views.py:64 | The conversion fails iff some piece is not an integer, and it reports the first such piece. |
| Queries.ParamsToInts | theatre/views.py:61-64 | On success the result has one integer per comma-separated piece. |
| Queries.ParamsToIntsFailure | theatre/views.py:61-64 | The list fails iff some piece is not an integer, and it reports the first such piece. |
| Queries.ParamsToIntsRoundTrip | theatre/views.py:61-64 | Joining the decimal forms of a non-empty list of integers with commas parses back to that list, when each form is within the 4300-digit limit. |
| Queries.ParamsToIntsExample | theatre/views.py:61-64 | "1,2,3" gives [1, 2, 3]. |
| Queries.ParamsToIntsRejectsEmptyPiece | theatre/views.py:61-64 | An empty piece ("", ",1", "1,,2") makes the list fail. |
| Queries.ParamsToIntsRejectsForeignChar | theatre/views.py:61-64 | A character that cannot occur in an integer or separator makes the list fail. |
| Queries.PlayList | theatre/views.py:66-85 | A bad id list fails, with the genres checked before the actors. Otherwise a play is listed iff it matches the title case-insensitively, has one of the genres and has one of the actors (each filter only when given). Each play appears once, by title. |
| Queries.PlayListUnfiltered | theatre/views.py:66-85 | Without filters every play is listed. |
| Queries.PlayListByGenres | theatre/views.py:77-79 | Filtering by an id list (each id within the digit limit) keeps exactly the plays that have one of those genres. |
| Queries.PerformanceList | theatre/views.py:147-173 | A non-integer play id fails. Otherwise a performance is listed iff it is on the given day and of the given play (each only when given). Rows are in ascending id order, and each carries capacity minus its tickets. |
| Queries.PerformanceListAfterSale | theatre/views.py:151-156 | After a sale the list succeeds iff it did before, with the same performances in the same order. The sold performance's availability is one lower and every other row is equal. |
| Queries.ReservationList | theatre/views.py:221-223 | A user sees exactly their own reservations, each once, newest first. |
| Queries.ReservationListAfterReserve | theatre/views.py:231-235 | A new reservation appears in its requester's list and in no one else's. Every list is otherwise unchanged. |
| Text.ParseIntOfShow | theatre/views.py:64 | `int()` reads back the decimal form of every integer whose form has at most 4300 digits, the integers `str()` renders. |
| Text.ParseIntRejectsForeignChar | theatre/views.py:64 | `int()` rejects a piece that holds a character no integer literal has. |
| Text.ParseIntRejectsBlank | theatre/views.py:64 | `int()` rejects an empty or all-whitespace piece. |
| Text.SplitJoin | theatre/views.py:64 | `split(",")` of pieces joined by commas gives the pieces back when none contains a comma. |
| Text.JoinSplit | theatre/views.py:64 | Joining the pieces of `split(",")` with commas gives the string back. |
| Text.Split | theatre/views.py:64 | `split` gives one more piece than there are separators, and no piece holds the separator. |
| Schema.DateOf | theatre/views.py:166-168 | The day number d of an instant t is the one with d · 86400 ≤ t < (d + 1) · 86400, so `show_time__date` matches the UTC day containing the show. |
| Schema.Consistent | theatre/migrations/0001_initial_squashed_0007_alter_prop_performance.py:17-101 | The constraints the migration declares (foreign keys, unique (row, seat, performance), unique genre names, keys issued by their sequences) plus the application invariant that every sold seat lies inside its hall. Every state-changing operation is proved to keep it. |
| Tickets.TicketsAvailable | theatre/views.py:151-156 | rows * seats_in_row minus the performance's tickets, never more than the hall's capacity. AvailabilityNonNegative, SaveLowersAvailability and ReservedAvailability state the rest. |
| Reservations.Opened | theatre/serializers.py:214 | The state with the new reservation under the next key, stamped with the requester and the request time. ReservedReservation states what it promises. |
| Reservations.Reserved | theatre/serializers.py:212-217 | The state after a committed batch: the reservation, then one ticket per request. ReservedReservation, ReservedTickets, ReservedKeepsConsistent and CreateReservation state what it promises. |
| Props.AttachAll | theatre/serializers.py:181-183 | The get-or-create loop keeps prop keys below the next prop key, which never goes down. AttachAllSound states what it computes. |
| Props.PerformanceUpdate | theatre/serializers.py:175-185 | A committed update keeps prop keys below the next prop key. PerformanceUpdateOutcome, PerformanceUpdateSchedule and PerformanceUpdateProps state what it does. |
| Queries.IdsParam | theatre/views.py:77-83 | An absent or empty id list means no filter. A given one fails iff one of its comma-separated pieces is not an integer, and otherwise yields one id per piece. |
| Queries.ParsePlayQuery | theatre/views.py:66-83 | The query parses iff both id lists parse, a bad genre list is reported before a bad actor list, and the title filter applies iff a title was given. |
| Queries.TakenSeats | theatre/serializers.py:157-161 | `taken_seats` lists (row, seat) iff a ticket for that seat of the performance is sold, ordered by row and then seat, with no seat twice under the constraints. |
| Queries.TakenSeatsAfterReserve | theatre/serializers.py:157-161 | After a reservation commits, a performance shows as taken its old seats plus the ones just requested for it. |
| Text.ContainsIgnoringCase | theatre/views.py:74-75 | `title__icontains` holds iff the title has a position where every character of the query matches, up to ASCII case. |
| Text.ParseInt | theatre/views.py:64 | An accepted piece is not blank after stripping, has at most 4300 digits (`sys.get_int_max_str_digits()`, underscores not counted), and only a leading minus sign gives a negative number. |
| Text.ParseIntSkipsUnicodeSpace | theatre/views.py:64 | `int("\u30007\x85")` is 7: non-ASCII whitespace around the number is skipped. |
| Text.ParseIntRejectsSeparatorPrefix | theatre/views.py:64 | A piece starting with one of the ASCII separators U+001C to U+001F raises `ValueError`, as `int("\x1c7")` does: `int()` does not treat them as whitespace, although `str.isspace()` does. |

## Left out

- FirstRow and FirstSeat: the body of `Ticket.validate_ticket` is not part of this model, and the tests only check that (5, 10) passes and (11, 10) and (5, 21) raise in a 10 × 20 hall. The inclusive range 1..N, the row checked before the seat, and the range carried in each error are assumptions of this model.
- Tickets.ValidateSeat: the error is a value carrying the bad number and its range. The wording of Django's error message is not modelled.
- Tickets.CheckTicket: field-level errors other than an unknown performance (a missing or non-integer `row`) are not modelled, because requests are typed values.
- Booking.Store.CreateReservation: a repeated seat within one batch is refused inside `create`, before or at the second INSERT. The exception kind (an `IntegrityError`, or a `ValidationError` from `Ticket.save()`, whose body is not part of this model) is not visible; the model reports it as `SeatClaimedTwice`, and the HTTP status it produces is not modelled.
- Booking.Store.CreateReservation: the reservation may hold zero tickets, because `many=True` accepts an empty list. The model follows the code here.
- Database sequences keep advancing on rollback. In the model a rolled-back transaction leaves every counter unchanged, so keys may differ from a database whose sequences are not transactional, though not which rows exist.
- Time zones and the `strptime` parsing of `date` are left out. The date filter takes a day number, and `DateOf` is UTC.
- Tickets.TicketsAvailable / Booking.Store.AddHall: hall sizes and ticket rows and seats are unbounded integers here. The range that a database `IntegerField` enforces is not modelled. How the database handles an overflow of the SQL product `rows * seats_in_row` is not modelled either; that depends on the database backend.
- Text.ContainsIgnoringCase: `icontains` is modelled with ASCII case folding, while the database folds case for all of Unicode.
- Text.ParseInt: `int()` also accepts non-ASCII decimal digits (Arabic-Indic, full-width); the model accepts ASCII digits only. The whitespace skipped is `int()`'s own: ASCII `\t` to `\r` and space plus the non-ASCII `str.isspace` characters. The 4300-digit limit is the default one; a changed `sys.set_int_max_str_digits` setting is not modelled.
- Schema.PlayBefore: titles are ordered by code point (`Text.StrLe`). The database orders `title` by its collation, which can differ (case, accents), so the order of plays may differ from the one the database returns.
- Prop names are not trimmed or length-checked as `CharField(max_length=255)` would do.
- A PUT that omits `show_time` is treated like a PATCH. Field-level validation of the request is left out.
- A PATCH without `props` raises `KeyError` in `validated_data.pop("props")`. This is modelled as the `PropsMissing` error with no change.
- Pagination, images, authentication and permissions, throttling, Celery tasks, admin and schema documentation are left out.
- Concurrency is left out: each request runs as one atomic step.
- Actor, TheatreHall and Play updates, deletes of actors and genres, and the m2m removal that follows them are not modelled.
- Queries.PerformanceList: `date` is taken as already parsed, so a malformed date (a `ValueError` in `strptime`) is not modelled.
