# Planetarium seat booking: a verified model

This project models the seat-booking core of a planetarium booking service built with Django and Django REST Framework. The service stores themes, astronomy shows, planetarium domes, show sessions in a dome, and user reservations. Each reservation holds tickets, and a ticket names a `(row, seat)` of a session.

The model covers the following:

- **Domes and tickets.**
  - A dome's capacity and its seat grid.
  - `Ticket.validate_ticket`, which checks the row first and then the seat.
  - `Ticket.save`, which runs `full_clean` before writing the row.
  - The `unique_together` seat key `(show_session, row, seat)`.
  - The default orderings of tickets and reservations.
  - The `on_delete=CASCADE` relations.
- **The store.** The database is a `Store` class with one field per table. Its invariant (`Database.Consistent`) says:
  - every foreign key resolves;
  - every stored ticket's seat lies in its session's dome;
  - no seat of a session is held twice.
- **Creating a reservation.**
  - Validation of the posted ticket list. An empty list is refused. Each entry is checked for its session, for the seat key against the stored tickets, and for the seat range of its dome.
  - `ReservationSerializer.create`: a loop of ticket inserts inside `transaction.atomic()`, rolled back as a whole when an insert raises.
  - `perform_create`, which stamps the requesting user on the new reservation.
- **Read-side projections.**
  - The `tickets_available` annotation of sessions.
  - The `taken_places` list of a session.
  - The case-insensitive theme search of the show list, with `distinct()`.
  - The owner filter, order and pages of the reservation list.

Modules:

- `Wrappers`: `Option` and `Result`.
- `Ordering`: generic filter, sort and distinct over sequences. Every queryset in the model uses these.
- `Models`: the pure rules of the models.
- `Database`: the tables, `full_clean`, cascades and the `Store` class.
- `Serializers`: validation, the create transaction and `taken_places`.
- `Views`: the view querysets, pagination, the create entry point, and the finding below.

Modelling choices:

- Times (`show_time`, `created_at`) are integers.
- The requesting user and the current time are parameters.
- Primary keys come from one counter shared by all tables.

## Model

| member | source | states |
|---|---|---|
| Models.CapacityIsSeatCount | planetarium/models.py:40-42 | a dome with non-negative dimensions has exactly `rows * seats_in_row` distinct seats |
| Models.ValidateTicket | planetarium/models.py:77-85 | passes iff `1 <= row <= rows` and `1 <= seat <= seats_in_row`; the row error is reported whenever the row is out of range, even if the seat is too; the seat error only for an in-range row |
| Models.ValidIffSeatExists | planetarium/models.py:77-85 | the range check accepts exactly the seats of the dome's grid |
| Models.OrderedTickets | planetarium/models.py:100 | tickets in their default order are sorted by `(row, seat)` and are a permutation of the input |
| Models.SeatsUniqueAppend | planetarium/models.py:99 | adding a ticket keeps the seat key unique iff no stored ticket holds its key |
| Models.WhereKeepsSeatsUnique | planetarium/models.py:99 | removing tickets never breaks the uniqueness of the seat key |
| Database.CleanTicket | planetarium/models.py:87-99 | `full_clean` passes iff the session's dome exists, the reservation exists, the seat is in the dome, and the seat key is free; the model's unknown-session error stands exactly for a missing session or dome (where the source raises from `clean`, see Left out); a range error carries the `validate_ticket` error; a key error names the ticket's key |
| Database.SaveKeepsConsistent | planetarium/models.py:91-93 | a save that passes `full_clean` keeps the store invariant |
| Database.Cascade | planetarium/models.py:50-74 | a session survives iff its show and its dome do; a ticket survives iff its session and its reservation do; no other table changes |
| Database.CascadeKeepsConsistent | planetarium/models.py:50-74 | whatever shows, domes, sessions or reservations are deleted, the cascade leaves a store satisfying the invariant |
| Database.DeleteReservationRemovesItsTickets | planetarium/models.py:74 | deleting a reservation removes exactly its tickets |
| Database.DeleteSessionRemovesItsTickets | planetarium/models.py:73 | deleting a session removes exactly its tickets |
| Database.DeleteUserRemovesItsBookings | planetarium/models.py:50-52 | deleting a user removes exactly its reservations and exactly the tickets of those reservations |
| Database.DeleteDomeRemovesItsSessions | planetarium/models.py:63 | deleting a dome removes exactly its sessions and their tickets |
| Database.DeleteShowRemovesItsSessions | planetarium/models.py:62 | deleting a show removes exactly its sessions and their tickets |
| Database.Store.constructor | planetarium/models.py:11-100 | an empty database satisfies the invariant |
| Database.Store.AddTheme | planetarium/models.py:11-12 | a new theme gets a fresh key; the invariant is kept |
| Database.Store.AddShow | planetarium/models.py:24-27 | a show is added iff all its themes exist, with a fresh key; otherwise nothing changes |
| Database.Store.AddDome | planetarium/models.py:35-38 | a new dome gets a fresh key; the invariant is kept |
| Database.Store.AddSession | planetarium/models.py:61-64 | a session is added iff its show and its dome exist; otherwise nothing changes |
| Database.Store.InsertReservation | planetarium/models.py:48-52 | appends one reservation, owned by the given user, under a fresh key; the invariant is kept |
| Database.Store.SaveTicket | planetarium/models.py:91-93 | the result is the `full_clean` verdict; the row is appended iff it passes, otherwise nothing changes; the invariant is kept |
| Database.Store.Restore | planetarium/serializers.py:114-119 | rollback: every table returns to the saved state |
| Database.Store.RemoveReservation | planetarium/models.py:74 | the new state is the cascade delete of the reservation; the invariant is kept |
| Database.Store.RemoveUser | planetarium/models.py:50-52 | the new state is the cascade delete of the user's reservations |
| Database.Store.RemoveSession | planetarium/models.py:73 | the new state is the cascade delete of the session |
| Database.Store.RemoveShow | planetarium/models.py:62 | the new state is the cascade delete of the show |
| Database.Store.RemoveDome | planetarium/models.py:63 | the new state is the cascade delete of the dome |
| Serializers.MakeTicket | planetarium/serializers.py:117-118 | the inserted ticket has the posted seat key and links to the new reservation |
| Serializers.ValidateTicketData | planetarium/serializers.py:70-83 | a posted ticket passes iff its session's dome exists, its seat key is not stored yet, and the seat is in the dome; a range error is the `validate_ticket` error of the session's own dome |
| Serializers.ValidateReservation | planetarium/serializers.py:106-107 | the posted list passes iff it is non-empty and every entry passes; the empty list gives the empty-list error exactly; otherwise one result per entry |
| Serializers.TicketsOf | planetarium/serializers.py:117-118 | one ticket per posted entry, in order |
| Serializers.SavesAtIffFresh | planetarium/serializers.py:117-118 | after validation, insert `j` of the batch fails iff an earlier entry names the same seat |
| Serializers.ValidatedBatchSavesIffDistinct | planetarium/serializers.py:113-119 | a validated batch has every insert pass iff no two entries name the same seat of the same session |
| Serializers.SaveFromOutcome | planetarium/serializers.py:117-118 | the insert loop from `i` on completes iff every remaining insert passes, leaving the whole batch; otherwise it stops at the first failing insert |
| Serializers.TransactionOutcome | planetarium/serializers.py:113-119 | the transaction commits iff every insert passes; a commit adds one reservation owned by the user and exactly one ticket per entry, and changes nothing else; a failure names the first failing insert and its error |
| Serializers.Create | planetarium/serializers.py:113-119 | the loop yields the transaction's outcome: on success, the store holds the new reservation and all its tickets; on failure, the store is exactly as before; the invariant is kept |
| Serializers.Seats | planetarium/serializers.py:86-89 | each ticket rendered as its `(row, seat)`, in order |
| Serializers.TakenPlaces | planetarium/serializers.py:96-103 | `taken_places` is sorted by `(row, seat)`, has one entry per ticket of the session, and holds exactly the seats of that session's tickets |
| Views.TicketsAvailableBounds | planetarium/views.py:114-119 | on a consistent store and a dome with non-negative dimensions, `0 <= tickets_available <= capacity` |
| Views.SessionSeatsInDome | planetarium/views.py:114-119 | the seats a consistent store holds for a session are seats of its dome |
| Views.BookingLowersAvailability | planetarium/views.py:114-119 | a committed booking lowers a session's `tickets_available` by its number of tickets in that session, and leaves sessions it does not name unchanged |
| Views.Contains | planetarium/views.py:59 | substring search: true iff the needle occurs at some position |
| Views.IContainsIgnoresCase | planetarium/views.py:59 | the search gives the same answer when both name and query are lowercased first |
| Views.MatchingRows | planetarium/views.py:58-59 | the joined rows contain exactly the shows having a theme whose name contains the query |
| Views.FilterShows | planetarium/views.py:52-61 | with a non-empty `theme`, exactly the shows having a matching theme; without one, every show; no show twice |
| Views.UnfilteredListIsTable | planetarium/views.py:56-61 | without a search (absent or empty), the show list of a consistent store is the show table unchanged, since the primary key keeps rows from repeating |
| Views.ListReservations | planetarium/views.py:151-152 | exactly the requesting user's reservations, newest first, each as often as stored |
| Views.CreatedIsListed | planetarium/views.py:151-152 | a committed reservation appears in its owner's list and in no other user's |
| Views.NumPages | planetarium/views.py:134-136 | at least one page, and just enough pages of 10 to hold every item |
| Views.Page | planetarium/views.py:134-136 | a page holds at most 10 items; a page is served iff the parameter is absent, `last`, or a number from 1 to the page count |
| Views.PagesCoverList | planetarium/views.py:134-136 | item `i` is entry `i % 10` of page `i / 10 + 1` |
| Views.PerformCreate | planetarium/views.py:160-161 | a request books iff validation passes and no seat is named twice; a booking adds one reservation owned by the requesting user and exactly its tickets, and changes nothing else; a refusal changes nothing; a validation refusal carries the validation error |
| Views.ValidatedBatchAbortsIffRepeat | planetarium/serializers.py:113-119 | after validation passes, the transaction aborts iff some seat is named twice |
| Views.RepeatedSeatPassesValidation | planetarium/serializers.py:70-83 | a concrete request naming one seat twice passes validation, and its second insert fails on the seat key |
| Views.RepeatErrors | planetarium/serializers.py:106-107 | entry `j` reports an error iff an earlier entry names the same seat |
| Views.ValidateBatch | planetarium/serializers.py:106-107 | the corrected validation passes iff the serializer's validation passes and no seat is named twice; it reports the serializer's own errors first |
| Views.CheckedBatchCommits | planetarium/serializers.py:113-119 | under the corrected validation, every accepted batch commits |
| Views.PerformCreateChecked | planetarium/views.py:160-161 | behind the corrected validation, a request books iff it validates; every refusal is a validation error and changes nothing |

## Left out

- Authentication, JWT and the permission classes are not modelled. `planetarium/permissions.py` is not part of this model. The requesting user is a parameter.
- Image upload (`upload_image`, `astronomy_show_file_path`) is not modelled: it depends on `uuid4`, `slugify` and file storage.
- The `wait_for_db` command, the URL routing and the schema/docs views are not modelled. They hold no booking logic.
- Updates of existing rows are not modelled. The model can only add and delete rows. The admin site registers `ShowSession` and `PlanetariumDome` (planetarium/admin.py:5-9), and its change forms, like any ORM update, can edit a dome's `rows` and `seats_in_row` or move a session to another dome. Nothing in the models checks such an edit against the tickets already stored. So `Database.Consistent` ("every stored ticket's seat lies in its session's dome") holds only for stores changed by the modelled operations, and so does `Views.TicketsAvailableBounds`. With an edit, a 5x10 dome holding 30 tickets of one session can shrink to 2 rows, and `tickets_available` then reads 20 - 30 = -10.
- Integer width is not modelled. `rows`, `seats_in_row`, `row` and `seat` are `IntegerField` columns (planetarium/models.py:37-38, 71-72), which the database bounds (32-bit on common backends). The model uses unbounded integers, so it does not capture two things. First, the min/max validators a model serializer derives from the column range reject an oversized posted `row` or `seat` as a field error before `validate_ticket` runs. Second, the database computes the annotation `rows * seats_in_row` (planetarium/views.py:116) in the column type, and it can overflow for very large domes.
- The List/Detail serializer variants and `get_serializer_class` dispatch are not modelled. They only shape the output fields.
- Concurrency and transaction isolation are not modelled. Requests run one at a time, so two concurrent requests for one seat are out of scope.
- Date-times are integers. `auto_now_add` is the `now` parameter.
- Views.IContains: lowercases ASCII letters only, not full Unicode case folding as the database may do.
- Database.CleanTicket: `full_clean` gathers every failing check. The model reports only the first, in `full_clean`'s order: foreign keys, then `clean`, then `validate_unique`. For a ticket whose session does not exist, the source does not reach a verdict at all. `full_clean` still calls `clean` (planetarium/models.py:87-89), which reads `self.show_session` and raises the session's `DoesNotExist`. That is not a `ValidationError`, so it escapes `full_clean`. The model returns `UnknownSession` instead. The create path cannot reach this case, because validation resolves the session first.
- Where each seat error arises:
  - A seat already stored is refused at validation with a 400 answer. The refusal comes from the unique-together validator that a model serializer derives from `Ticket.Meta.unique_together`, which runs before `validate`.
  - Only a seat named twice in one request reaches the insert. There `full_clean` raises Django's `ValidationError` inside `create`, and the REST framework does not turn it into a 400 answer (see Findings). The model records this as `Aborted` with the rollback.
- Views.Page: models only the list of items on a page, not the `count`, `next` and `previous` fields of the response. Any page parameter other than a number or `last` is one `Malformed` case.
- Theme deletion is not modelled: no view deletes themes. Shows keep their theme ids in the model.
- The `theme` query parameter is an `Option`: `None` when it is absent. An empty value also means no filter.
- Views.FilterShows: the order of the listed shows is not stated, because `AstronomyShow` has no default ordering.

## Findings

| source | as written | input that shows it | evidently intended | confidence | as-written member | corrected member |
|---|---|---|---|---|---|---|
| planetarium/serializers.py:106-119 | the validation of the posted tickets compares each ticket only with stored tickets, so a request naming one seat twice passes validation; the second `Ticket.objects.create` then raises Django's `ValidationError` inside `create`, which the REST framework does not turn into a 400 answer | one dome of 1x1 seats, one session in it, tickets `[(1,1), (1,1)]` for that session | refuse the request at validation with a per-ticket seat error, so that every validated request commits | medium, not executed | Views.RepeatedSeatPassesValidation | Views.ValidateBatch |
