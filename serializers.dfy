/** The write path of a reservation: validation of the posted ticket list,
    then `ReservationSerializer.create`, which inserts the reservation and
    its tickets inside one `transaction.atomic()` block; and the
    `taken_places` list of a session's detail view. */
module Serializers {
  import opened Wrappers
  import opened Ordering
  import opened Models
  import opened Database

  /** One posted ticket: `{"row", "seat", "show_session"}`. */
  datatype TicketRequest = TicketRequest(row: int, seat: int, session: Id)

  /** Why the posted list was refused before anything was written:
      `allow_empty=False`, or one entry per posted ticket (`None` for the
      tickets that passed), as the list serializer reports them. */
  datatype ValidationError =
    | EmptyTickets
    | InvalidTickets(perTicket: seq<Option<TicketError>>)

  /** Which insert of the batch failed inside the transaction, and why. */
  datatype SaveFailure = SaveFailure(index: nat, cause: TicketError)

  function RequestKey(q: TicketRequest): SeatKey {
    (q.session, q.row, q.seat)
  }

  function MakeTicket(q: TicketRequest, rid: Id): (t: Ticket)
    ensures Key(t) == RequestKey(q) && t.reservation == rid
  {
    Ticket(q.row, q.seat, q.session, rid)
  }

  /** `TicketSerializer` on one posted ticket. The session must exist (the
      related field), then the unique-together validator that a model
      serializer derives from `Ticket.Meta.unique_together` runs against
      the stored tickets, then `validate` calls `validate_ticket` on the
      session's dome. */
  function ValidateTicketData(tb: Tables, q: TicketRequest): (r: Option<TicketError>)
    ensures r.None? <==>
              && DomeOf(tb, q.session).Some?
              && !Taken(tb.tickets, RequestKey(q))
              && InDome(DomeOf(tb, q.session).value, q.row, q.seat)
    ensures r.Some? && r.value.OutOfRange? ==>
              && DomeOf(tb, q.session).Some? && !Taken(tb.tickets, RequestKey(q))
              && ValidateTicket(q.row, q.seat, DomeOf(tb, q.session).value) == Some(r.value.cause)
  {
    if DomeOf(tb, q.session).None? then Some(UnknownSession(q.session))
    else if Taken(tb.tickets, RequestKey(q)) then Some(NotUnique(RequestKey(q)))
    else
      var check := ValidateTicket(q.row, q.seat, DomeOf(tb, q.session).value);
      if check.Some? then Some(OutOfRange(check.value)) else None
  }

  /** `ReservationSerializer` validation of the `tickets` list: an empty
      list is refused, otherwise every entry is validated on its own and
      any failing entry refuses the whole request. */
  function ValidateReservation(tb: Tables, reqs: seq<TicketRequest>): (r: Result<(), ValidationError>)
    ensures r.Ok? <==> |reqs| > 0 && forall i :: 0 <= i < |reqs| ==> ValidateTicketData(tb, reqs[i]).None?
    ensures r == Err(EmptyTickets) <==> reqs == []
    ensures r.Err? && r.error.InvalidTickets? ==>
              && |r.error.perTicket| == |reqs|
              && (forall i :: 0 <= i < |reqs| ==> r.error.perTicket[i] == ValidateTicketData(tb, reqs[i]))
  {
    if reqs == [] then Err(EmptyTickets)
    else
      var perTicket := seq(|reqs|, i requires 0 <= i < |reqs| => ValidateTicketData(tb, reqs[i]));
      if exists i :: 0 <= i < |reqs| && perTicket[i].Some? then Err(InvalidTickets(perTicket))
      else
        assert forall i :: 0 <= i < |reqs| ==> ValidateTicketData(tb, reqs[i]) == perTicket[i];
        Ok(())
  }

  /** The ticket rows a batch of requests becomes, in request order. */
  function TicketsOf(reqs: seq<TicketRequest>, rid: Id): (r: seq<Ticket>)
    ensures |r| == |reqs|
    ensures forall i :: 0 <= i < |reqs| ==> r[i] == MakeTicket(reqs[i], rid)
  {
    if reqs == [] then [] else TicketsOf(reqs[..|reqs| - 1], rid) + [MakeTicket(reqs[|reqs| - 1], rid)]
  }

  /** The store right after `Reservation.objects.create` inside the
      transaction. */
  function Opened(tb: Tables, user: Id, now: int): Tables {
    tb.(reservations := tb.reservations + [Reservation(tb.nextId, user, now)], nextId := tb.nextId + 1)
  }

  /** The store after the first `j` tickets of the batch were inserted. */
  function Staged(tb: Tables, rid: Id, reqs: seq<TicketRequest>, j: nat): Tables
    requires j <= |reqs|
  {
    tb.(tickets := tb.tickets + TicketsOf(reqs[..j], rid))
  }

  /** The `j`-th `Ticket.objects.create` of the loop passes `full_clean`. */
  predicate SavesAt(tb: Tables, rid: Id, reqs: seq<TicketRequest>, j: nat)
    requires j < |reqs|
  {
    CleanTicket(Staged(tb, rid, reqs, j), MakeTicket(reqs[j], rid)).None?
  }

  /** No two requests of the batch name the same seat of the same session. */
  predicate DistinctSeats(reqs: seq<TicketRequest>) {
    forall i, j :: 0 <= i < j < |reqs| ==> RequestKey(reqs[i]) != RequestKey(reqs[j])
  }

  lemma TakenAppend(a: seq<Ticket>, b: seq<Ticket>, k: SeatKey)
    ensures Taken(a + b, k) <==> Taken(a, k) || Taken(b, k)
  {
    if Taken(a + b, k) {
      var t :| t in a + b && Key(t) == k;
      assert t in a || t in b;
    }
    if Taken(a, k) {
      var t :| t in a && Key(t) == k;
      assert t in a + b;
    }
    if Taken(b, k) {
      var t :| t in b && Key(t) == k;
      assert t in a + b;
    }
  }

  /** A seat is taken by a batch's tickets exactly when some request of the
      batch names it. */
  lemma TakenByBatch(reqs: seq<TicketRequest>, rid: Id, k: SeatKey)
    ensures Taken(TicketsOf(reqs, rid), k) <==> exists i :: 0 <= i < |reqs| && RequestKey(reqs[i]) == k
  {
    var ts := TicketsOf(reqs, rid);
    if Taken(ts, k) {
      var t :| t in ts && Key(t) == k;
      var i :| 0 <= i < |ts| && ts[i] == t;
      assert RequestKey(reqs[i]) == k;
    }
    if exists i :: 0 <= i < |reqs| && RequestKey(reqs[i]) == k {
      var i :| 0 <= i < |reqs| && RequestKey(reqs[i]) == k;
      assert ts[i] in ts && Key(ts[i]) == k;
    }
  }

  /** The insert of ticket `j` of a validated batch fails exactly when an
      earlier ticket of the same batch already holds its seat. */
  lemma SavesAtIffFresh(tb: Tables, user: Id, now: int, reqs: seq<TicketRequest>, j: nat)
    requires j < |reqs|
    requires ValidateTicketData(tb, reqs[j]).None?
    ensures SavesAt(Opened(tb, user, now), tb.nextId, reqs, j) <==>
              forall i :: 0 <= i < j ==> RequestKey(reqs[i]) != RequestKey(reqs[j])
  {
    var tb1 := Opened(tb, user, now);
    var rid := tb.nextId;
    var st := Staged(tb1, rid, reqs, j);
    var t := MakeTicket(reqs[j], rid);
    assert DomeOf(st, t.session) == DomeOf(tb, t.session);
    assert Reservation(rid, user, now) in st.reservations;
    assert TicketFits(st, t);
    TakenAppend(tb.tickets, TicketsOf(reqs[..j], rid), Key(t));
    TakenByBatch(reqs[..j], rid, Key(t));
    if !(forall i :: 0 <= i < j ==> RequestKey(reqs[i]) != RequestKey(reqs[j])) {
      var i :| 0 <= i < j && RequestKey(reqs[i]) == RequestKey(reqs[j]);
      assert reqs[..j][i] == reqs[i];
    }
  }

  /** All or nothing, decided up front: once every posted ticket has passed
      validation, the transaction commits exactly when no two tickets of
      the batch name the same seat of the same session. */
  lemma {:induction false} ValidatedBatchSavesIffDistinct(tb: Tables, user: Id, now: int, reqs: seq<TicketRequest>)
    requires ValidateReservation(tb, reqs).Ok?
    ensures (forall j :: 0 <= j < |reqs| ==> SavesAt(Opened(tb, user, now), tb.nextId, reqs, j)) <==> DistinctSeats(reqs)
  {
    forall j | 0 <= j < |reqs|
      ensures SavesAt(Opened(tb, user, now), tb.nextId, reqs, j) <==>
                forall i :: 0 <= i < j ==> RequestKey(reqs[i]) != RequestKey(reqs[j])
    {
      SavesAtIffFresh(tb, user, now, reqs, j);
    }
  }

  /** One turn of the insert loop: the `i`-th save succeeds exactly when
      `SavesAt` holds, and then the store has one more ticket of the batch. */
  lemma SaveStep(tb: Tables, rid: Id, reqs: seq<TicketRequest>, i: nat)
    requires i < |reqs|
    ensures CleanTicket(Staged(tb, rid, reqs, i), MakeTicket(reqs[i], rid)).None? <==> SavesAt(tb, rid, reqs, i)
    ensures Staged(tb, rid, reqs, i + 1) ==
              Staged(tb, rid, reqs, i).(tickets := Staged(tb, rid, reqs, i).tickets + [MakeTicket(reqs[i], rid)])
  {
    assert reqs[..i + 1][..i] == reqs[..i];
  }

  /** The inserts of tickets `i..` of the batch into `tb`, one at a time in
      request order; the first insert whose `full_clean` fails aborts the
      rest. */
  function SaveFrom(tb: Tables, rid: Id, reqs: seq<TicketRequest>, i: nat): Result<Tables, SaveFailure>
    requires i <= |reqs|
    decreases |reqs| - i
  {
    if i == |reqs| then Ok(tb)
    else
      var t := MakeTicket(reqs[i], rid);
      match CleanTicket(tb, t)
      case Some(e) => Err(SaveFailure(i, e))
      case None => SaveFrom(tb.(tickets := tb.tickets + [t]), rid, reqs, i + 1)
  }

  /** The body of the `transaction.atomic()` block of
      `ReservationSerializer.create`: the reservation row, then the tickets. */
  function Transaction(tb: Tables, user: Id, now: int, reqs: seq<TicketRequest>): Result<Tables, SaveFailure> {
    SaveFrom(Opened(tb, user, now), tb.nextId, reqs, 0)
  }

  /** What the inserts from `i` on do to a store holding the first `i`
      tickets of the batch: they all pass exactly when every remaining
      `SavesAt` holds, and then the store holds the whole batch; otherwise
      the failure names the first remaining ticket that does not pass. */
  lemma {:induction false} SaveFromOutcome(base: Tables, rid: Id, reqs: seq<TicketRequest>, i: nat)
    requires i <= |reqs|
    ensures var o := SaveFrom(Staged(base, rid, reqs, i), rid, reqs, i);
      && (o.Ok? <==> forall j :: i <= j < |reqs| ==> SavesAt(base, rid, reqs, j))
      && (o.Ok? ==> o.value == Staged(base, rid, reqs, |reqs|))
      && (o.Err? ==>
            && i <= o.error.index < |reqs|
            && (forall j :: i <= j < o.error.index ==> SavesAt(base, rid, reqs, j))
            && CleanTicket(Staged(base, rid, reqs, o.error.index), MakeTicket(reqs[o.error.index], rid)) == Some(o.error.cause))
    decreases |reqs| - i
  {
    if i < |reqs| {
      SaveStep(base, rid, reqs, i);
      SaveFromOutcome(base, rid, reqs, i + 1);
    }
  }

  /** The transaction commits exactly when every insert of the batch passes
      `full_clean`; a commit adds the reservation and every ticket of the
      batch and nothing else, and a failure names the first ticket whose
      insert raises. */
  lemma TransactionOutcome(tb: Tables, user: Id, now: int, reqs: seq<TicketRequest>)
    ensures var o := Transaction(tb, user, now, reqs);
      && (o.Ok? <==> forall j :: 0 <= j < |reqs| ==> SavesAt(Opened(tb, user, now), tb.nextId, reqs, j))
      && (o.Ok? ==> o.value == tb.(reservations := tb.reservations + [Reservation(tb.nextId, user, now)],
                                   tickets := tb.tickets + TicketsOf(reqs, tb.nextId),
                                   nextId := tb.nextId + 1))
      && (o.Err? ==>
            && o.error.index < |reqs|
            && (forall j :: 0 <= j < o.error.index ==> SavesAt(Opened(tb, user, now), tb.nextId, reqs, j))
            && CleanTicket(Staged(Opened(tb, user, now), tb.nextId, reqs, o.error.index),
                           MakeTicket(reqs[o.error.index], tb.nextId)) == Some(o.error.cause))
  {
    var base := Opened(tb, user, now);
    assert reqs[..0] == [] && reqs[..|reqs|] == reqs;
    assert Staged(base, tb.nextId, reqs, 0) == base;
    SaveFromOutcome(base, tb.nextId, reqs, 0);
  }

  /** `ReservationSerializer.create`: inside `transaction.atomic()`, create
      the reservation, then save the tickets one at a time; if any save
      raises, the transaction rolls back and nothing of the batch remains. */
  method Create(db: Store, user: Id, reqs: seq<TicketRequest>, now: int) returns (r: Result<Id, SaveFailure>)
    requires db.Valid()
    modifies db
    ensures db.Valid()
    ensures r.Ok? <==> Transaction(old(db.State()), user, now, reqs).Ok?
    ensures r.Ok? ==> r.value == old(db.nextId) && db.State() == Transaction(old(db.State()), user, now, reqs).value
    ensures r.Err? ==> r.error == Transaction(old(db.State()), user, now, reqs).error && db.State() == old(db.State())
  {
    var before := db.State();
    var rid := db.InsertReservation(user, now);
    var started := db.State();
    assert started == Opened(before, user, now);
    assert reqs[..0] == [];
    var i := 0;
    while i < |reqs|
      invariant 0 <= i <= |reqs|
      invariant db.Valid()
      invariant db.State() == Staged(started, rid, reqs, i)
      invariant SaveFrom(db.State(), rid, reqs, i) == Transaction(before, user, now, reqs)
    {
      var e := db.SaveTicket(MakeTicket(reqs[i], rid));
      SaveStep(started, rid, reqs, i);
      if e.Some? {
        db.Restore(before);
        r := Err(SaveFailure(i, e.value));
        return;
      }
      i := i + 1;
    }
    r := Ok(rid);
  }

  /** The `(row, seat)` of each ticket, as `TicketSeatsSerializer` renders
      a list of tickets. */
  function Seats(ts: seq<Ticket>): (r: seq<Seat>)
    ensures |r| == |ts|
    ensures forall i :: 0 <= i < |ts| ==> r[i] == SeatOf(ts[i])
  {
    if ts == [] then [] else Seats(ts[..|ts| - 1]) + [SeatOf(ts[|ts| - 1])]
  }

  lemma SeatsMembers(ts: seq<Ticket>)
    ensures forall p :: p in Seats(ts) <==> exists t :: t in ts && SeatOf(t) == p
  {
    var r := Seats(ts);
    forall p ensures p in r <==> exists t :: t in ts && SeatOf(t) == p {
      if p in r {
        var i :| 0 <= i < |r| && r[i] == p;
        assert ts[i] in ts;
      }
      if exists t :: t in ts && SeatOf(t) == p {
        var t :| t in ts && SeatOf(t) == p;
        var i :| 0 <= i < |ts| && ts[i] == t;
        assert r[i] == p;
      }
    }
  }

  lemma SeatsSorted(ts: seq<Ticket>)
    requires SortedBy(ts, TicketBefore)
    ensures SortedBy(Seats(ts), SeatBefore)
  {
    var r := Seats(ts);
    forall i, j | 0 <= i < j < |r| ensures SeatBefore(r[i], r[j]) {
      assert TicketBefore(ts[i], ts[j]);
    }
  }

  /** `ShowSessionDetailSerializer.taken_places`: the `(row, seat)` of
      every ticket of the session, in the tickets' default order. */
  function TakenPlaces(tickets: seq<Ticket>, sid: Id): (r: seq<Seat>)
    ensures SortedBy(r, SeatBefore)
    ensures |r| == |SessionTickets(tickets, sid)|
    ensures forall p :: p in r <==> exists t :: t in tickets && t.session == sid && SeatOf(t) == p
  {
    var own := SessionTickets(tickets, sid);
    var ordered := OrderedTickets(own);
    TicketOrderIsTotal();
    SortByKeepsMembers(own, TicketBefore);
    SeatsMembers(ordered);
    SeatsSorted(ordered);
    Seats(ordered)
  }
}
