/** The read side of the API and its booking entry point: the
    `tickets_available` annotation of the session list, the theme search of
    the show list, the owner filter, order and pages of the reservation
    list, and `perform_create`, which stamps the requesting user on a new
    reservation. */
module Views {
  import opened Wrappers
  import opened Ordering
  import opened Models
  import opened Database
  import opened Serializers

  // ---------------------------------------------------------------------
  // Session list: `tickets_available`
  // ---------------------------------------------------------------------

  /** `F("planetarium_dome__rows") * F("planetarium_dome__seats_in_row")
      - Count("tickets")` for one session. */
  function TicketsAvailable(tb: Tables, sid: Id): int
    requires DomeOf(tb, sid).Some?
  {
    Capacity(DomeOf(tb, sid).value) - |SessionTickets(tb.tickets, sid)|
  }

  /** The seat positions held by `ts`. */
  function SeatSet(ts: seq<Ticket>): set<Seat> {
    if ts == [] then {} else SeatSet(ts[..|ts| - 1]) + {SeatOf(ts[|ts| - 1])}
  }

  lemma {:induction false} InSeatSet(ts: seq<Ticket>, p: Seat)
    ensures p in SeatSet(ts) <==> exists t :: t in ts && SeatOf(t) == p
  {
    if ts != [] {
      var init := ts[..|ts| - 1];
      assert ts == init + [ts[|ts| - 1]];
      InSeatSet(init, p);
    }
  }

  /** Tickets of one session that never share a key hold as many distinct
      seats as there are tickets. */
  lemma {:induction false} SeatSetSize(ts: seq<Ticket>, sid: Id)
    requires SeatsUnique(ts)
    requires forall t :: t in ts ==> t.session == sid
    ensures |SeatSet(ts)| == |ts|
  {
    if ts != [] {
      var init, last := ts[..|ts| - 1], ts[|ts| - 1];
      assert ts == init + [last];
      SeatsUniqueAppend(init, last);
      SeatSetSize(init, sid);
      forall t | t in init ensures SeatOf(t) != SeatOf(last) {
        assert Key(t) != Key(last);
      }
      InSeatSet(init, SeatOf(last));
    }
  }

  /** Every seat a consistent store holds for a session is a seat of the
      session's dome. */
  lemma SessionSeatsInDome(tb: Tables, sid: Id)
    requires Consistent(tb)
    requires DomeOf(tb, sid).Some?
    ensures SeatSet(SessionTickets(tb.tickets, sid)) <= Cells(DomeOf(tb, sid).value)
  {
    var d := DomeOf(tb, sid).value;
    var own := SessionTickets(tb.tickets, sid);
    forall p | p in SeatSet(own) ensures p in Cells(d) {
      InSeatSet(own, p);
      var t :| t in own && SeatOf(t) == p;
      assert TicketFits(tb, t);
      ValidIffSeatExists(t.row, t.seat, d);
    }
  }

  /** On a consistent store, a session of a dome with non-negative
      dimensions never shows a negative or an over-capacity count of free
      seats. */
  lemma TicketsAvailableBounds(tb: Tables, sid: Id)
    requires Consistent(tb)
    requires DomeOf(tb, sid).Some?
    requires DomeOf(tb, sid).value.rows >= 0 && DomeOf(tb, sid).value.seatsInRow >= 0
    ensures 0 <= TicketsAvailable(tb, sid) <= Capacity(DomeOf(tb, sid).value)
  {
    var d := DomeOf(tb, sid).value;
    var own := SessionTickets(tb.tickets, sid);
    WhereKeepsSeatsUnique(tb.tickets, InSession(sid));
    SeatSetSize(own, sid);
    SessionSeatsInDome(tb, sid);
    CapacityIsSeatCount(d);
    SubsetSize(SeatSet(own), Cells(d));
  }

  lemma SubsetSize<T>(a: set<T>, b: set<T>)
    requires a <= b
    ensures |a| <= |b|
  {
    assert b == a + (b - a);
  }

  /** The requests of a batch that name session `sid`. */
  function RequestFor(sid: Id): TicketRequest -> bool {
    (q: TicketRequest) => q.session == sid
  }

  lemma {:induction false} BatchTicketsOfSession(reqs: seq<TicketRequest>, rid: Id, sid: Id)
    ensures |Where(TicketsOf(reqs, rid), InSession(sid))| == |Where(reqs, RequestFor(sid))|
  {
    if reqs != [] {
      var init := reqs[..|reqs| - 1];
      BatchTicketsOfSession(init, rid, sid);
      assert TicketsOf(reqs, rid) == TicketsOf(init, rid) + [MakeTicket(reqs[|reqs| - 1], rid)];
    }
  }

  /** A committed booking lowers the free seats of each session by the
      number of its tickets in that session, so a session the batch does not
      name keeps its count. */
  lemma BookingLowersAvailability(tb: Tables, user: Id, now: int, reqs: seq<TicketRequest>, sid: Id)
    requires Transaction(tb, user, now, reqs).Ok?
    requires DomeOf(tb, sid).Some?
    ensures DomeOf(Transaction(tb, user, now, reqs).value, sid) == DomeOf(tb, sid)
    ensures TicketsAvailable(Transaction(tb, user, now, reqs).value, sid) ==
              TicketsAvailable(tb, sid) - |Where(reqs, RequestFor(sid))|
    ensures (forall i :: 0 <= i < |reqs| ==> reqs[i].session != sid) ==>
              TicketsAvailable(Transaction(tb, user, now, reqs).value, sid) == TicketsAvailable(tb, sid)
  {
    TransactionOutcome(tb, user, now, reqs);
    var batch := TicketsOf(reqs, tb.nextId);
    WhereAppend(tb.tickets, batch, InSession(sid));
    BatchTicketsOfSession(reqs, tb.nextId, sid);
    if forall i :: 0 <= i < |reqs| ==> reqs[i].session != sid {
      assert forall q :: q in reqs ==> !RequestFor(sid)(q);
      WhereNone(reqs, RequestFor(sid));
    }
  }

  // ---------------------------------------------------------------------
  // Show list: the `theme` search
  // ---------------------------------------------------------------------

  /** The lowercase mapping the search applies (ASCII letters only). */
  function Lower(c: char): char {
    if 'A' <= c <= 'Z' then (c as int + 32) as char else c
  }

  function Fold(s: string): string {
    seq(|s|, i requires 0 <= i < |s| => Lower(s[i]))
  }

  /** `n` occurs in `h` starting at position `i`. */
  predicate OccursAt(h: string, n: string, i: int) {
    0 <= i && i + |n| <= |h| && h[i..i + |n|] == n
  }

  /** Substring search, scanning `h` from the left. */
  function Contains(h: string, n: string): (r: bool)
    ensures r <==> exists i :: OccursAt(h, n, i)
    decreases |h|
  {
    if |n| > |h| then
      assert forall i :: !OccursAt(h, n, i);
      false
    else if h[..|n|] == n then
      assert OccursAt(h, n, 0);
      true
    else
      var rest := Contains(h[1..], n);
      assert forall i :: OccursAt(h[1..], n, i) <==> OccursAt(h, n, i + 1) by {
        forall i ensures OccursAt(h[1..], n, i) <==> OccursAt(h, n, i + 1) {
          if 0 <= i && i + |n| <= |h| - 1 {
            assert h[1..][i..i + |n|] == h[i + 1..i + 1 + |n|];
          }
        }
      }
      assert rest ==> exists i :: OccursAt(h, n, i) by {
        if rest {
          var i :| OccursAt(h[1..], n, i);
          assert OccursAt(h, n, i + 1);
        }
      }
      assert (exists i :: OccursAt(h, n, i)) ==> rest by {
        if exists i :: OccursAt(h, n, i) {
          var i :| OccursAt(h, n, i);
          assert i != 0;
          assert OccursAt(h[1..], n, i - 1);
        }
      }
      rest
  }

  /** `__icontains`: substring search after lowering both sides. */
  predicate IContains(h: string, n: string) {
    Contains(Fold(h), Fold(n))
  }

  /** The search does not depend on the letter case of the query or of the
      name. */
  lemma IContainsIgnoresCase(h: string, n: string)
    ensures IContains(h, n) <==> IContains(Fold(h), Fold(n))
  {
    assert Fold(Fold(h)) == Fold(h);
    assert Fold(Fold(n)) == Fold(n);
  }

  /** A show has a theme whose name contains `q`. */
  predicate ShowMatches(themes: map<Id, string>, s: Show, q: string) {
    exists k :: 0 <= k < |s.themes| && s.themes[k] in themes && IContains(themes[s.themes[k]], q)
  }

  /** The rows of the join of shows with their matching themes, projected
      to the show: a show appears once per matching theme. */
  function MatchingRows(shows: seq<Show>, themes: map<Id, string>, q: string): (r: seq<Show>)
    ensures forall s :: s in r <==> s in shows && ShowMatches(themes, s, q)
  {
    if shows == [] then []
    else
      var init := shows[..|shows| - 1];
      var last := shows[|shows| - 1];
      assert shows == init + [last];
      var hits := Hits(last, themes, q, |last.themes|);
      assert hits != [] ==> hits[0] in hits;
      MatchingRows(init, themes, q) + hits
  }

  /** One copy of `s` for each of its first `k` themes that matches. */
  function Hits(s: Show, themes: map<Id, string>, q: string, k: nat): (r: seq<Show>)
    requires k <= |s.themes|
    ensures forall x :: x in r ==> x == s
    ensures r != [] <==> exists j :: 0 <= j < k && s.themes[j] in themes && IContains(themes[s.themes[j]], q)
  {
    if k == 0 then []
    else
      var tid := s.themes[k - 1];
      Hits(s, themes, q, k - 1) + (if tid in themes && IContains(themes[tid], q) then [s] else [])
  }

  /** `AstronomyShowViewSet.get_queryset`: with a non-empty `theme`
      parameter, the shows having a theme whose name contains it, ignoring
      case; otherwise every show; each show at most once. */
  function FilterShows(shows: seq<Show>, themes: map<Id, string>, theme: Option<string>): (r: seq<Show>)
    ensures NoDuplicates(r)
    ensures forall s :: s in r <==>
              s in shows && (theme.None? || theme.value == [] || ShowMatches(themes, s, theme.value))
  {
    if theme.Some? && theme.value != [] then Distinct(MatchingRows(shows, themes, theme.value))
    else Distinct(shows)
  }

  /** Without a search (no parameter, or an empty one), the show list is
      the show table as it is: the primary key keeps rows from repeating. */
  lemma UnfilteredListIsTable(tb: Tables)
    requires Consistent(tb)
    ensures FilterShows(tb.shows, tb.themes, None) == tb.shows
    ensures FilterShows(tb.shows, tb.themes, Some([])) == tb.shows
  {
    KeysUniqueNoDuplicates(tb.shows, ShowId);
    DistinctOfDistinct(tb.shows);
  }

  // ---------------------------------------------------------------------
  // Reservation list
  // ---------------------------------------------------------------------

  function OwnedBy(user: Id): Reservation -> bool {
    (r: Reservation) => r.user == user
  }

  /** `ReservationViewSet.get_queryset` in the default order of the model:
      the requesting user's reservations, newest first. */
  function ListReservations(rs: seq<Reservation>, user: Id): (r: seq<Reservation>)
    ensures SortedBy(r, NewerFirst)
    ensures forall x :: x in r <==> x in rs && x.user == user
    ensures multiset(r) == multiset(Where(rs, OwnedBy(user)))
  {
    ReservationOrderIsTotal();
    SortByKeepsMembers(Where(rs, OwnedBy(user)), NewerFirst);
    SortBy(Where(rs, OwnedBy(user)), NewerFirst)
  }

  /** A committed booking shows up in its owner's list and in nobody
      else's. */
  lemma CreatedIsListed(tb: Tables, user: Id, now: int, reqs: seq<TicketRequest>, other: Id)
    requires Transaction(tb, user, now, reqs).Ok?
    ensures Reservation(tb.nextId, user, now) in ListReservations(Transaction(tb, user, now, reqs).value.reservations, user)
    ensures other != user ==>
              Reservation(tb.nextId, user, now) !in ListReservations(Transaction(tb, user, now, reqs).value.reservations, other)
  {
    TransactionOutcome(tb, user, now, reqs);
  }

  const PageSize := 10

  /** The `page` query parameter: absent, a number, the string `last`, or
      anything else. */
  datatype PageParam = NoPage | PageNumber(n: int) | LastPage | Malformed

  /** `NotFound` ("Invalid page."). */
  datatype PageError = InvalidPage

  /** Django's `Paginator.num_pages` with no orphans and an allowed empty
      first page. */
  function NumPages(count: nat): (r: nat)
    ensures r >= 1
    ensures (r - 1) * PageSize < count <= r * PageSize || (count == 0 && r == 1)
  {
    if count == 0 then 1 else (count - 1) / PageSize + 1
  }

  /** `ReservationPagination.paginate_queryset`. */
  function Page<T>(items: seq<T>, param: PageParam): (r: Result<seq<T>, PageError>)
    ensures r.Ok? ==> |r.value| <= PageSize
    ensures r.Ok? <==> !param.Malformed? && (!param.PageNumber? || 1 <= param.n <= NumPages(|items|))
  {
    var n := match param
      case NoPage => 1
      case PageNumber(k) => k
      case LastPage => NumPages(|items|)
      case Malformed => 0;
    if param.Malformed? || !(1 <= n <= NumPages(|items|)) then Err(InvalidPage)
    else
      var lo := (n - 1) * PageSize;
      var hi := if n * PageSize < |items| then n * PageSize else |items|;
      Ok(items[lo..hi])
  }

  /** Every item is on exactly one page: item `i` is entry `i % 10` of page
      `i / 10 + 1`. */
  lemma PagesCoverList<T>(items: seq<T>, i: int)
    requires 0 <= i < |items|
    ensures Page(items, PageNumber(i / PageSize + 1)).Ok?
    ensures i % PageSize < |Page(items, PageNumber(i / PageSize + 1)).value|
    ensures Page(items, PageNumber(i / PageSize + 1)).value[i % PageSize] == items[i]
  {
    var n := i / PageSize + 1;
    assert (n - 1) * PageSize + i % PageSize == i;
    assert n <= NumPages(|items|);
  }

  // ---------------------------------------------------------------------
  // Reservation create
  // ---------------------------------------------------------------------

  /** Why a create request produced no reservation: the posted list failed
      validation (a 400 answer), or an insert raised inside the transaction. */
  datatype CreateError = Invalid(reason: ValidationError) | Aborted(failure: SaveFailure)

  /** `CreateModelMixin.create` with `perform_create`: validate the posted
      tickets against the store, then save with `user` set to the
      requesting user. */
  method PerformCreate(db: Store, user: Id, reqs: seq<TicketRequest>, now: int) returns (r: Result<Id, CreateError>)
    requires db.Valid()
    modifies db
    ensures db.Valid()
    ensures r.Ok? <==> ValidateReservation(old(db.State()), reqs).Ok? && DistinctSeats(reqs)
    ensures r.Ok? ==>
              && r.value == old(db.nextId)
              && db.reservations == old(db.reservations) + [Reservation(r.value, user, now)]
              && db.tickets == old(db.tickets) + TicketsOf(reqs, r.value)
              && db.themes == old(db.themes) && db.shows == old(db.shows)
              && db.domes == old(db.domes) && db.sessions == old(db.sessions)
    ensures r.Err? ==> db.State() == old(db.State())
    ensures r.Err? && r.error.Invalid? ==> ValidateReservation(old(db.State()), reqs) == Err(r.error.reason)
  {
    var checked := ValidateReservation(db.State(), reqs);
    if checked.Err? {
      r := Err(Invalid(checked.error));
      return;
    }
    ghost var before := db.State();
    TransactionOutcome(before, user, now, reqs);
    ValidatedBatchSavesIffDistinct(before, user, now, reqs);
    var saved := Create(db, user, reqs, now);
    if saved.Err? {
      r := Err(Aborted(saved.error));
    } else {
      r := Ok(saved.value);
    }
  }

  // ---------------------------------------------------------------------
  // A seat named twice in one request
  // ---------------------------------------------------------------------

  /** As written, validation lets through a batch that names one seat twice,
      and such a batch is exactly the one whose transaction then aborts. */
  lemma ValidatedBatchAbortsIffRepeat(tb: Tables, user: Id, now: int, reqs: seq<TicketRequest>)
    requires ValidateReservation(tb, reqs).Ok?
    ensures Transaction(tb, user, now, reqs).Err? <==> !DistinctSeats(reqs)
  {
    TransactionOutcome(tb, user, now, reqs);
    ValidatedBatchSavesIffDistinct(tb, user, now, reqs);
  }

  /** One dome of one seat, one session in it, and a request for that seat
      twice: validation accepts it, and the second insert fails on the seat
      key, so the request ends in an unhandled error instead of a 400
      answer. */
  lemma RepeatedSeatPassesValidation()
    ensures var tb := Tables(map[], [Show(0, "s", "", [])], map[1 := Dome("d", 1, 1)], map[2 := Session(0, 1, 0)], [], [], 3);
            var reqs := [TicketRequest(1, 1, 2), TicketRequest(1, 1, 2)];
            && ValidateReservation(tb, reqs).Ok?
            && Transaction(tb, 9, 0, reqs) == Err(SaveFailure(1, NotUnique((2, 1, 1))))
  {
    var tb := Tables(map[], [Show(0, "s", "", [])], map[1 := Dome("d", 1, 1)], map[2 := Session(0, 1, 0)], [], [], 3);
    var q := TicketRequest(1, 1, 2);
    var reqs := [q, q];
    assert DomeOf(tb, 2) == Some(Dome("d", 1, 1));
    assert !Taken(tb.tickets, RequestKey(q));
    assert ValidateTicketData(tb, q).None?;
    var base := Opened(tb, 9, 0);
    var t := MakeTicket(q, 3);
    assert Reservation(3, 9, 0) in base.reservations;
    assert CleanTicket(base, t).None?;
    var next := base.(tickets := [t]);
    assert t in next.tickets;
    assert CleanTicket(next, t) == Some(NotUnique((2, 1, 1)));
  }

  /** The per-ticket errors for seats named again later in the batch: entry
      `j` reports the seat key when an earlier request names the same seat. */
  function RepeatErrors(reqs: seq<TicketRequest>): (r: seq<Option<TicketError>>)
    ensures |r| == |reqs|
    ensures forall j :: 0 <= j < |reqs| ==>
              (r[j].Some? <==> exists i :: 0 <= i < j && RequestKey(reqs[i]) == RequestKey(reqs[j]))
  {
    seq(|reqs|, j requires 0 <= j < |reqs| =>
      if exists i :: 0 <= i < j && RequestKey(reqs[i]) == RequestKey(reqs[j])
      then Some(NotUnique(RequestKey(reqs[j]))) else None)
  }

  /** The validation the request evidently needs: the serializer's checks,
      and then no seat named twice, reported per ticket like the other
      ticket errors. */
  function ValidateBatch(tb: Tables, reqs: seq<TicketRequest>): (r: Result<(), ValidationError>)
    ensures r.Ok? <==> ValidateReservation(tb, reqs).Ok? && DistinctSeats(reqs)
    ensures ValidateReservation(tb, reqs).Err? ==> r == ValidateReservation(tb, reqs)
    ensures r.Err? && ValidateReservation(tb, reqs).Ok? ==> r == Err(InvalidTickets(RepeatErrors(reqs)))
  {
    var v := ValidateReservation(tb, reqs);
    if v.Err? then v
    else
      var errors := RepeatErrors(reqs);
      if exists j :: 0 <= j < |reqs| && errors[j].Some? then Err(InvalidTickets(errors))
      else
        assert DistinctSeats(reqs) by {
          forall i, j | 0 <= i < j < |reqs| ensures RequestKey(reqs[i]) != RequestKey(reqs[j]) {
            assert errors[j].None?;
          }
        }
        Ok(())
  }

  /** With the corrected validation, a validated batch always commits. */
  lemma CheckedBatchCommits(tb: Tables, user: Id, now: int, reqs: seq<TicketRequest>)
    requires ValidateBatch(tb, reqs).Ok?
    ensures Transaction(tb, user, now, reqs).Ok?
  {
    ValidatedBatchAbortsIffRepeat(tb, user, now, reqs);
  }

  /** `perform_create` behind the corrected validation: every refusal is a
      validation error that leaves the store unchanged, and an accepted
      request always books. */
  method PerformCreateChecked(db: Store, user: Id, reqs: seq<TicketRequest>, now: int) returns (r: Result<Id, ValidationError>)
    requires db.Valid()
    modifies db
    ensures db.Valid()
    ensures r.Ok? <==> ValidateBatch(old(db.State()), reqs).Ok?
    ensures r.Ok? ==>
              && r.value == old(db.nextId)
              && db.reservations == old(db.reservations) + [Reservation(r.value, user, now)]
              && db.tickets == old(db.tickets) + TicketsOf(reqs, r.value)
              && db.themes == old(db.themes) && db.shows == old(db.shows)
              && db.domes == old(db.domes) && db.sessions == old(db.sessions)
    ensures r.Err? ==> db.State() == old(db.State()) && ValidateBatch(old(db.State()), reqs) == Err(r.error)
  {
    var checked := ValidateBatch(db.State(), reqs);
    if checked.Err? {
      r := Err(checked.error);
      return;
    }
    ghost var before := db.State();
    TransactionOutcome(before, user, now, reqs);
    CheckedBatchCommits(before, user, now, reqs);
    var saved := Create(db, user, reqs, now);
    assert saved.Ok?;
    r := Ok(saved.value);
  }
}
