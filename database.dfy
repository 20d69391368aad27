/** The relational store behind the models: its tables, the integrity it
    keeps (foreign keys, the seat range of every ticket, the seat uniqueness
    constraint), `Ticket.save` with its `full_clean`, and the `on_delete=CASCADE`
    relations. */
module Database {
  import opened Wrappers
  import opened Ordering
  import opened Models

  /** The contents of every table, and the next primary key to hand out
      (one counter for all tables). */
  datatype Tables = Tables(
    themes: map<Id, string>,
    shows: seq<Show>,
    domes: map<Id, Dome>,
    sessions: map<Id, Session>,
    reservations: seq<Reservation>,
    tickets: seq<Ticket>,
    nextId: nat)

  const Empty := Tables(map[], [], map[], map[], [], [], 0)

  /** Why `full_clean` refused a ticket, in the order the checks run: the
      foreign keys, then `clean` (the seat range), then `unique_together`. */
  datatype TicketError =
    | UnknownSession(session: Id)
    | UnknownReservation(reservation: Id)
    | OutOfRange(cause: SeatError)
    | NotUnique(key: SeatKey)

  function ShowId(s: Show): Id {
    s.id
  }

  function ReservationId(r: Reservation): Id {
    r.id
  }

  predicate HasShow(shows: seq<Show>, id: Id) {
    exists s :: s in shows && s.id == id
  }

  predicate HasReservation(rs: seq<Reservation>, id: Id) {
    exists r :: r in rs && r.id == id
  }

  /** `ticket.show_session.planetarium_dome`, when both rows exist. */
  function DomeOf(tb: Tables, sid: Id): (r: Option<Dome>)
    ensures r.Some? <==> sid in tb.sessions && tb.sessions[sid].dome in tb.domes
  {
    if sid in tb.sessions && tb.sessions[sid].dome in tb.domes then Some(tb.domes[tb.sessions[sid].dome])
    else None
  }

  /** A ticket row whose references exist and whose seat exists in its
      session's dome. */
  predicate TicketFits(tb: Tables, t: Ticket) {
    && DomeOf(tb, t.session).Some?
    && InDome(DomeOf(tb, t.session).value, t.row, t.seat)
    && HasReservation(tb.reservations, t.reservation)
  }

  ghost predicate CatalogConsistent(tb: Tables) {
    && (forall id :: id in tb.themes ==> id < tb.nextId)
    && (forall s :: s in tb.shows ==> s.id < tb.nextId)
    && (forall s, tid :: s in tb.shows && tid in s.themes ==> tid in tb.themes)
    && KeysUnique(tb.shows, ShowId)
    && (forall id :: id in tb.domes ==> id < tb.nextId)
    && (forall id :: id in tb.sessions ==> id < tb.nextId)
    && (forall id :: id in tb.sessions ==> tb.sessions[id].dome in tb.domes)
    && (forall id :: id in tb.sessions ==> HasShow(tb.shows, tb.sessions[id].show))
  }

  ghost predicate ReservationsConsistent(tb: Tables) {
    && (forall r :: r in tb.reservations ==> r.id < tb.nextId)
    && KeysUnique(tb.reservations, ReservationId)
  }

  ghost predicate TicketsConsistent(tb: Tables) {
    && (forall t :: t in tb.tickets ==> TicketFits(tb, t))
    && SeatsUnique(tb.tickets)
  }

  /** The store invariant: every foreign key resolves, every key is below the
      counter, every ticket's seat lies in its dome, and no seat of a session
      is held twice. */
  ghost predicate Consistent(tb: Tables) {
    CatalogConsistent(tb) && ReservationsConsistent(tb) && TicketsConsistent(tb)
  }

  lemma EmptyIsConsistent()
    ensures Consistent(Empty)
  {
  }

  /** `Ticket.save`: `full_clean` first, and the row is written only if it
      passes. The check order is that of `full_clean`: field validation
      (the foreign keys), then `clean` (`validate_ticket`), then
      `validate_unique`. */
  function CleanTicket(tb: Tables, t: Ticket): (r: Option<TicketError>)
    ensures r.None? <==> TicketFits(tb, t) && !Taken(tb.tickets, Key(t))
    ensures r == Some(UnknownSession(t.session)) <==> DomeOf(tb, t.session).None?
    ensures r.Some? && r.value.OutOfRange? ==>
              && DomeOf(tb, t.session).Some? && HasReservation(tb.reservations, t.reservation)
              && ValidateTicket(t.row, t.seat, DomeOf(tb, t.session).value) == Some(r.value.cause)
    ensures r.Some? && r.value.NotUnique? ==> TicketFits(tb, t) && r.value.key == Key(t)
  {
    if DomeOf(tb, t.session).None? then Some(UnknownSession(t.session))
    else if !HasReservation(tb.reservations, t.reservation) then Some(UnknownReservation(t.reservation))
    else
      var check := ValidateTicket(t.row, t.seat, DomeOf(tb, t.session).value);
      if check.Some? then Some(OutOfRange(check.value))
      else if Taken(tb.tickets, Key(t)) then Some(NotUnique(Key(t)))
      else None
  }

  /** A save that `full_clean` accepts keeps the store invariant. */
  lemma SaveKeepsConsistent(tb: Tables, t: Ticket)
    requires Consistent(tb)
    requires CleanTicket(tb, t).None?
    ensures Consistent(tb.(tickets := tb.tickets + [t]))
  {
    var tb' := tb.(tickets := tb.tickets + [t]);
    SeatsUniqueAppend(tb.tickets, t);
    assert forall u :: u in tb'.tickets ==> u in tb.tickets || u == t;
    assert forall u :: TicketFits(tb', u) == TicketFits(tb, u);
  }

  /** Deleting with `on_delete=CASCADE`: a session goes with its show or its
      dome, a ticket with its session or its reservation. */
  function Cascade(tb: Tables): (r: Tables)
    ensures r.themes == tb.themes && r.shows == tb.shows && r.domes == tb.domes
    ensures r.reservations == tb.reservations && r.nextId == tb.nextId
    ensures forall id :: id in r.sessions <==>
              id in tb.sessions && tb.sessions[id].dome in tb.domes && HasShow(tb.shows, tb.sessions[id].show)
    ensures forall id :: id in r.sessions ==> r.sessions[id] == tb.sessions[id]
    ensures forall t :: t in r.tickets <==>
              t in tb.tickets && t.session in r.sessions && HasReservation(tb.reservations, t.reservation)
  {
    var sessions := map id | id in tb.sessions && tb.sessions[id].dome in tb.domes
                                && HasShow(tb.shows, tb.sessions[id].show) :: tb.sessions[id];
    var tickets := Where(tb.tickets, (t: Ticket) => t.session in sessions && HasReservation(tb.reservations, t.reservation));
    tb.(sessions := sessions, tickets := tickets)
  }

  /** `tb` is `tb0` with some shows, domes, sessions or reservations removed
      (and nothing else changed), before the cascade runs; the remaining
      shows and reservations still have unique keys. */
  ghost predicate Shrinks(tb0: Tables, tb: Tables) {
    && tb.themes == tb0.themes && tb.nextId == tb0.nextId && tb.tickets == tb0.tickets
    && (forall s :: s in tb.shows ==> s in tb0.shows)
    && (forall id :: id in tb.domes ==> id in tb0.domes && tb.domes[id] == tb0.domes[id])
    && (forall id :: id in tb.sessions ==> id in tb0.sessions && tb.sessions[id] == tb0.sessions[id])
    && (forall r :: r in tb.reservations ==> r in tb0.reservations)
    && KeysUnique(tb.shows, ShowId) && KeysUnique(tb.reservations, ReservationId)
  }

  /** Whatever rows a delete removes, the cascade leaves a store that keeps
      every integrity rule: no ticket or session is left pointing at a row
      that is gone. */
  lemma CascadeKeepsConsistent(tb0: Tables, tb: Tables)
    requires Consistent(tb0)
    requires Shrinks(tb0, tb)
    ensures Consistent(Cascade(tb))
  {
    var r := Cascade(tb);
    forall t | t in r.tickets ensures TicketFits(r, t) {
      assert t in tb0.tickets && TicketFits(tb0, t);
      assert DomeOf(r, t.session) == DomeOf(tb0, t.session);
    }
    WhereKeepsSeatsUnique(tb.tickets, (t: Ticket) => t.session in r.sessions && HasReservation(tb.reservations, t.reservation));
  }

  function DeleteReservation(tb: Tables, rid: Id): Tables {
    Cascade(tb.(reservations := Where(tb.reservations, (r: Reservation) => r.id != rid)))
  }

  /** Deleting a user deletes the reservations it owns (`on_delete=CASCADE`
      on `Reservation.user`), and with them their tickets. */
  function DeleteUser(tb: Tables, user: Id): Tables {
    Cascade(tb.(reservations := Where(tb.reservations, (r: Reservation) => r.user != user)))
  }

  function DeleteSession(tb: Tables, sid: Id): Tables {
    Cascade(tb.(sessions := tb.sessions - {sid}))
  }

  function DeleteShow(tb: Tables, showId: Id): Tables {
    Cascade(tb.(shows := Where(tb.shows, (s: Show) => s.id != showId)))
  }

  function DeleteDome(tb: Tables, domeId: Id): Tables {
    Cascade(tb.(domes := tb.domes - {domeId}))
  }

  /** After a reservation is deleted, none of its tickets remains, and every
      other ticket remains. */
  lemma DeleteReservationRemovesItsTickets(tb: Tables, rid: Id)
    requires Consistent(tb)
    ensures forall t :: t in DeleteReservation(tb, rid).tickets <==> t in tb.tickets && t.reservation != rid
  {
    var rs := Where(tb.reservations, (r: Reservation) => r.id != rid);
    forall t | t in tb.tickets && t.reservation != rid
      ensures HasReservation(rs, t.reservation)
    {
      assert TicketFits(tb, t);
      var r :| r in tb.reservations && r.id == t.reservation;
      assert r in rs;
    }
  }

  /** After a session is deleted, exactly its tickets are gone. */
  lemma DeleteSessionRemovesItsTickets(tb: Tables, sid: Id)
    requires Consistent(tb)
    ensures forall t :: t in DeleteSession(tb, sid).tickets <==> t in tb.tickets && t.session != sid
  {
    forall t | t in tb.tickets && t.session != sid
      ensures t in DeleteSession(tb, sid).tickets
    {
      assert TicketFits(tb, t);
    }
  }

  /** Deleting a user removes exactly the reservations it owns and exactly
      the tickets of those reservations. */
  lemma DeleteUserRemovesItsBookings(tb: Tables, user: Id)
    requires Consistent(tb)
    ensures forall r :: r in DeleteUser(tb, user).reservations <==> r in tb.reservations && r.user != user
    ensures forall t :: t in DeleteUser(tb, user).tickets <==>
              t in tb.tickets && forall r :: r in tb.reservations && r.id == t.reservation ==> r.user != user
  {
    var rs := Where(tb.reservations, (r: Reservation) => r.user != user);
    forall t | t in tb.tickets
      ensures HasReservation(rs, t.reservation) <==>
                forall r :: r in tb.reservations && r.id == t.reservation ==> r.user != user
    {
      assert TicketFits(tb, t);
      var r :| r in tb.reservations && r.id == t.reservation;
      if r.user != user {
        assert r in rs;
      }
    }
  }

  /** Deleting a dome removes exactly the sessions held in it and exactly
      their tickets. */
  lemma DeleteDomeRemovesItsSessions(tb: Tables, domeId: Id)
    requires Consistent(tb)
    ensures forall id :: id in DeleteDome(tb, domeId).sessions <==> id in tb.sessions && tb.sessions[id].dome != domeId
    ensures forall t :: t in DeleteDome(tb, domeId).tickets <==>
              t in tb.tickets && tb.sessions[t.session].dome != domeId
  {
    forall t | t in tb.tickets ensures t.session in tb.sessions && HasReservation(tb.reservations, t.reservation) {
      assert TicketFits(tb, t);
    }
  }

  /** Deleting a show removes exactly its sessions and exactly their
      tickets. */
  lemma DeleteShowRemovesItsSessions(tb: Tables, showId: Id)
    requires Consistent(tb)
    ensures forall id :: id in DeleteShow(tb, showId).sessions <==> id in tb.sessions && tb.sessions[id].show != showId
    ensures forall t :: t in DeleteShow(tb, showId).tickets <==>
              t in tb.tickets && tb.sessions[t.session].show != showId
  {
    var kept := Where(tb.shows, (s: Show) => s.id != showId);
    forall id | id in tb.sessions
      ensures HasShow(kept, tb.sessions[id].show) <==> tb.sessions[id].show != showId
    {
      var s :| s in tb.shows && s.id == tb.sessions[id].show;
      if s.id != showId {
        assert s in kept;
      }
    }
    forall t | t in tb.tickets ensures t.session in tb.sessions && HasReservation(tb.reservations, t.reservation) {
      assert TicketFits(tb, t);
    }
  }

  /** The database: one field per table, updated in place. */
  class Store {
    var themes: map<Id, string>
    var shows: seq<Show>
    var domes: map<Id, Dome>
    var sessions: map<Id, Session>
    var reservations: seq<Reservation>
    var tickets: seq<Ticket>
    var nextId: nat

    function State(): Tables
      reads this
    {
      Tables(themes, shows, domes, sessions, reservations, tickets, nextId)
    }

    ghost predicate Valid()
      reads this
    {
      Consistent(State())
    }

    constructor ()
      ensures Valid() && State() == Empty
    {
      themes, shows, domes, sessions := map[], [], map[], map[];
      reservations, tickets, nextId := [], [], 0;
      EmptyIsConsistent();
    }

    /** Admin create of a `ShowTheme`. */
    method AddTheme(name: string) returns (id: Id)
      requires Valid()
      modifies this
      ensures Valid()
      ensures id == old(nextId) && id !in old(themes)
      ensures State() == old(State()).(themes := old(themes)[id := name], nextId := id + 1)
    {
      id := nextId;
      themes := themes[id := name];
      nextId := nextId + 1;
    }

    /** Admin create of an `AstronomyShow`; every theme id must exist. */
    method AddShow(title: string, description: string, themeIds: seq<Id>) returns (r: Option<Id>)
      requires Valid()
      modifies this
      ensures Valid()
      ensures r.Some? <==> forall tid :: tid in themeIds ==> tid in old(themes)
      ensures r.Some? ==> r.value == old(nextId) && !HasShow(old(shows), r.value)
      ensures r.Some? ==> State() == old(State()).(shows := old(shows) + [Show(r.value, title, description, themeIds)],
                                                  nextId := r.value + 1)
      ensures r.None? ==> State() == old(State())
    {
      if forall tid :: tid in themeIds ==> tid in themes {
        var id := nextId;
        shows := shows + [Show(id, title, description, themeIds)];
        nextId := nextId + 1;
        r := Some(id);
      } else {
        r := None;
      }
    }

    /** Admin create of a `PlanetariumDome`. */
    method AddDome(name: string, rows: int, seatsInRow: int) returns (id: Id)
      requires Valid()
      modifies this
      ensures Valid()
      ensures id == old(nextId) && id !in old(domes)
      ensures State() == old(State()).(domes := old(domes)[id := Dome(name, rows, seatsInRow)], nextId := id + 1)
    {
      id := nextId;
      domes := domes[id := Dome(name, rows, seatsInRow)];
      nextId := nextId + 1;
    }

    /** Admin create of a `ShowSession`; the show and the dome must exist. */
    method AddSession(show: Id, dome: Id, showTime: int) returns (r: Option<Id>)
      requires Valid()
      modifies this
      ensures Valid()
      ensures r.Some? <==> HasShow(old(shows), show) && dome in old(domes)
      ensures r.Some? ==> r.value == old(nextId) && r.value !in old(sessions)
      ensures r.Some? ==> State() == old(State()).(sessions := old(sessions)[r.value := Session(show, dome, showTime)],
                                                  nextId := r.value + 1)
      ensures r.None? ==> State() == old(State())
    {
      if HasShow(shows, show) && dome in domes {
        var id := nextId;
        sessions := sessions[id := Session(show, dome, showTime)];
        nextId := nextId + 1;
        r := Some(id);
      } else {
        r := None;
      }
    }

    /** `Reservation.objects.create(user=...)`, stamped with `now`. */
    method InsertReservation(user: Id, now: int) returns (id: Id)
      requires Valid()
      modifies this
      ensures Valid()
      ensures id == old(nextId) && !HasReservation(old(reservations), id)
      ensures State() == old(State()).(reservations := old(reservations) + [Reservation(id, user, now)],
                                       nextId := id + 1)
    {
      id := nextId;
      reservations := reservations + [Reservation(id, user, now)];
      nextId := nextId + 1;
      assert forall t :: TicketFits(old(State()), t) ==> TicketFits(State(), t) by {
        forall t | TicketFits(old(State()), t) ensures TicketFits(State(), t) {
          var r :| r in old(reservations) && r.id == t.reservation;
          assert r in reservations;
        }
      }
    }

    /** `Ticket.save`: run `full_clean`, then write the row. A refused
        ticket leaves the store as it was. */
    method SaveTicket(t: Ticket) returns (e: Option<TicketError>)
      requires Valid()
      modifies this
      ensures Valid()
      ensures e == CleanTicket(old(State()), t)
      ensures e.None? ==> State() == old(State()).(tickets := old(tickets) + [t])
      ensures e.Some? ==> State() == old(State())
    {
      e := CleanTicket(State(), t);
      if e.None? {
        SaveKeepsConsistent(State(), t);
        tickets := tickets + [t];
      }
    }

    /** Transaction rollback: every table goes back to a saved state. */
    method Restore(saved: Tables)
      requires Consistent(saved)
      modifies this
      ensures Valid() && State() == saved
    {
      themes, shows, domes, sessions := saved.themes, saved.shows, saved.domes, saved.sessions;
      reservations, tickets, nextId := saved.reservations, saved.tickets, saved.nextId;
    }

    method RemoveReservation(rid: Id)
      requires Valid()
      modifies this
      ensures Valid() && State() == DeleteReservation(old(State()), rid)
    {
      var before := State();
      var next := before.(reservations := Where(before.reservations, (r: Reservation) => r.id != rid));
      WhereKeepsKeysUnique(before.reservations, (r: Reservation) => r.id != rid, ReservationId);
      CascadeKeepsConsistent(before, next);
      Restore(Cascade(next));
    }

    method RemoveUser(user: Id)
      requires Valid()
      modifies this
      ensures Valid() && State() == DeleteUser(old(State()), user)
    {
      var before := State();
      var next := before.(reservations := Where(before.reservations, (r: Reservation) => r.user != user));
      WhereKeepsKeysUnique(before.reservations, (r: Reservation) => r.user != user, ReservationId);
      CascadeKeepsConsistent(before, next);
      Restore(Cascade(next));
    }

    method RemoveSession(sid: Id)
      requires Valid()
      modifies this
      ensures Valid() && State() == DeleteSession(old(State()), sid)
    {
      var before := State();
      var next := before.(sessions := before.sessions - {sid});
      CascadeKeepsConsistent(before, next);
      Restore(Cascade(next));
    }

    method RemoveShow(showId: Id)
      requires Valid()
      modifies this
      ensures Valid() && State() == DeleteShow(old(State()), showId)
    {
      var before := State();
      var next := before.(shows := Where(before.shows, (s: Show) => s.id != showId));
      WhereKeepsKeysUnique(before.shows, (s: Show) => s.id != showId, ShowId);
      CascadeKeepsConsistent(before, next);
      Restore(Cascade(next));
    }

    method RemoveDome(domeId: Id)
      requires Valid()
      modifies this
      ensures Valid() && State() == DeleteDome(old(State()), domeId)
    {
      var before := State();
      var next := before.(domes := before.domes - {domeId});
      CascadeKeepsConsistent(before, next);
      Restore(Cascade(next));
    }
  }
}
