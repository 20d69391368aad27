/** The planetarium's entities and the pure rules attached to them: a dome's
    capacity and seat grid, the row/seat range check of a ticket, the default
    orderings of tickets and reservations, and the `(show_session, row, seat)`
    key that makes a seat "taken". */
module Models {
  import opened Wrappers
  import opened Ordering

  type Id = nat

  /** A seat position in a dome: `(row, seat)`, both 1-based. */
  type Seat = (int, int)

  /** The uniqueness key of a ticket: `(show_session, row, seat)`. */
  type SeatKey = (Id, int, int)

  /** A dome's layout. The columns are plain integers, so negative values are
      representable. */
  datatype Dome = Dome(name: string, rows: int, seatsInRow: int)

  /** An astronomy show and the ids of its themes (the many-to-many relation). */
  datatype Show = Show(id: Id, title: string, description: string, themes: seq<Id>)

  /** A show in a dome at a time; the time is an opaque ordered value. */
  datatype Session = Session(show: Id, dome: Id, showTime: int)

  /** A reservation, owned by a user, stamped with its creation time. */
  datatype Reservation = Reservation(id: Id, user: Id, createdAt: int)

  datatype Ticket = Ticket(row: int, seat: int, session: Id, reservation: Id)

  /** Which range check of a ticket failed, with the bound it names. */
  datatype SeatError = RowOutOfRange(rows: int) | SeatOutOfRange(seatsInRow: int)

  function Capacity(d: Dome): int {
    d.rows * d.seatsInRow
  }

  /** The seats `(row, 1) .. (row, seats)` of one row. */
  function RowCells(row: int, seats: int): set<Seat>
    decreases seats
  {
    if seats <= 0 then {} else RowCells(row, seats - 1) + {(row, seats)}
  }

  /** Every seat of a `rows` x `seats` grid, built row by row. */
  function Grid(rows: int, seats: int): set<Seat>
    decreases rows
  {
    if rows <= 0 then {} else Grid(rows - 1, seats) + RowCells(rows, seats)
  }

  /** The seats that exist in a dome. */
  function Cells(d: Dome): set<Seat> {
    Grid(d.rows, d.seatsInRow)
  }

  lemma {:induction false} InRow(row: int, seats: int, p: Seat)
    ensures p in RowCells(row, seats) <==> p.0 == row && 1 <= p.1 <= seats
    decreases seats
  {
    if seats > 0 {
      InRow(row, seats - 1, p);
    }
  }

  /** A seat is in the grid exactly when both of its 1-based coordinates are
      within the dimensions. */
  lemma {:induction false} InGrid(rows: int, seats: int, p: Seat)
    ensures p in Grid(rows, seats) <==> 1 <= p.0 <= rows && 1 <= p.1 <= seats
    decreases rows
  {
    if rows > 0 {
      InGrid(rows - 1, seats, p);
      InRow(rows, seats, p);
    }
  }

  lemma {:induction false} RowCellsSize(row: int, seats: nat)
    ensures |RowCells(row, seats)| == seats
  {
    if seats > 0 {
      RowCellsSize(row, seats - 1);
      InRow(row, seats - 1, (row, seats));
    }
  }

  /** The grid of `rows` rows is the grid of `rows - 1` rows plus a
      disjoint last row. */
  lemma GridSplit(rows: int, seats: int)
    requires rows > 0
    ensures |Grid(rows, seats)| == |Grid(rows - 1, seats)| + |RowCells(rows, seats)|
  {
    var above, last := Grid(rows - 1, seats), RowCells(rows, seats);
    forall p | p in last ensures p !in above {
      InRow(rows, seats, p);
      InGrid(rows - 1, seats, p);
    }
    assert above * last == {};
  }

  lemma {:induction false} GridSize(rows: nat, seats: nat)
    ensures |Grid(rows, seats)| == rows * seats
  {
    if rows > 0 {
      GridSize(rows - 1, seats);
      RowCellsSize(rows, seats);
      GridSplit(rows, seats);
      assert (rows - 1) * seats + seats == rows * seats;
    }
  }

  /** A dome with non-negative dimensions has exactly `Capacity` seats. */
  lemma CapacityIsSeatCount(d: Dome)
    requires d.rows >= 0 && d.seatsInRow >= 0
    ensures |Cells(d)| == Capacity(d)
  {
    GridSize(d.rows, d.seatsInRow);
  }

  /** Both 1-based coordinates lie within the dome's dimensions. */
  predicate InDome(d: Dome, row: int, seat: int) {
    1 <= row <= d.rows && 1 <= seat <= d.seatsInRow
  }

  /** `Ticket.validate_ticket`: the row is checked first, then the seat. */
  function ValidateTicket(row: int, seat: int, d: Dome): (r: Option<SeatError>)
    ensures r.None? <==> InDome(d, row, seat)
    ensures r == Some(RowOutOfRange(d.rows)) <==> !(1 <= row <= d.rows)
    ensures r == Some(SeatOutOfRange(d.seatsInRow)) <==> 1 <= row <= d.rows && !(1 <= seat <= d.seatsInRow)
  {
    if !(1 <= row <= d.rows) then Some(RowOutOfRange(d.rows))
    else if !(1 <= seat <= d.seatsInRow) then Some(SeatOutOfRange(d.seatsInRow))
    else None
  }

  /** A ticket passes `validate_ticket` exactly when its seat is one of the
      seats the dome has. */
  lemma ValidIffSeatExists(row: int, seat: int, d: Dome)
    ensures ValidateTicket(row, seat, d).None? <==> (row, seat) in Cells(d)
  {
    InGrid(d.rows, d.seatsInRow, (row, seat));
  }

  function SeatOf(t: Ticket): Seat {
    (t.row, t.seat)
  }

  function Key(t: Ticket): SeatKey {
    (t.session, t.row, t.seat)
  }

  /** `Ticket.Meta.ordering = ["row", "seat"]`. */
  predicate TicketBefore(a: Ticket, b: Ticket) {
    a.row < b.row || (a.row == b.row && a.seat <= b.seat)
  }

  /** The same order on bare seat positions. */
  predicate SeatBefore(a: Seat, b: Seat) {
    a.0 < b.0 || (a.0 == b.0 && a.1 <= b.1)
  }

  /** `Reservation.Meta.ordering = ["-created_at"]`. */
  predicate NewerFirst(a: Reservation, b: Reservation) {
    a.createdAt >= b.createdAt
  }

  lemma TicketOrderIsTotal()
    ensures TotalPreorder(TicketBefore)
  {
  }

  lemma ReservationOrderIsTotal()
    ensures TotalPreorder(NewerFirst)
  {
  }

  /** A ticket queryset in its default order. */
  function OrderedTickets(ts: seq<Ticket>): (r: seq<Ticket>)
    ensures SortedBy(r, TicketBefore)
    ensures multiset(r) == multiset(ts)
  {
    TicketOrderIsTotal();
    SortBy(ts, TicketBefore)
  }

  /** Some ticket of `ts` holds the key `k`. */
  predicate Taken(ts: seq<Ticket>, k: SeatKey) {
    exists t :: t in ts && Key(t) == k
  }

  /** The `unique_together = ("show_session", "row", "seat")` constraint. */
  predicate SeatsUnique(ts: seq<Ticket>) {
    forall i, j :: 0 <= i < j < |ts| ==> Key(ts[i]) != Key(ts[j])
  }

  /** Appending a ticket keeps the constraint exactly when its key is free. */
  lemma SeatsUniqueAppend(ts: seq<Ticket>, t: Ticket)
    ensures SeatsUnique(ts + [t]) <==> SeatsUnique(ts) && !Taken(ts, Key(t))
  {
    var ts' := ts + [t];
    if SeatsUnique(ts') {
      forall i, j | 0 <= i < j < |ts| ensures Key(ts[i]) != Key(ts[j]) {
        assert ts[i] == ts'[i] && ts[j] == ts'[j];
      }
      forall u | u in ts ensures Key(u) != Key(t) {
        var k :| 0 <= k < |ts| && ts[k] == u;
        assert ts'[k] == u && ts'[|ts|] == t;
      }
    }
    if SeatsUnique(ts) && !Taken(ts, Key(t)) {
      forall i, j | 0 <= i < j < |ts'| ensures Key(ts'[i]) != Key(ts'[j]) {
        if j == |ts| {
          assert ts'[i] == ts[i] && ts[i] in ts;
        } else {
          assert ts'[i] == ts[i] && ts'[j] == ts[j];
        }
      }
    }
  }

  /** Removing tickets (a cascade delete) cannot create a collision. */
  lemma {:induction false} WhereKeepsSeatsUnique(ts: seq<Ticket>, keep: Ticket -> bool)
    requires SeatsUnique(ts)
    ensures SeatsUnique(Where(ts, keep))
  {
    if ts != [] {
      var init, last := ts[..|ts| - 1], ts[|ts| - 1];
      assert ts == init + [last];
      SeatsUniqueAppend(init, last);
      WhereKeepsSeatsUnique(init, keep);
      if keep(last) {
        assert !Taken(Where(init, keep), Key(last));
        SeatsUniqueAppend(Where(init, keep), last);
      }
    }
  }

  /** The tickets of one show session. */
  function InSession(sid: Id): Ticket -> bool {
    (t: Ticket) => t.session == sid
  }

  function SessionTickets(ts: seq<Ticket>, sid: Id): (r: seq<Ticket>)
    ensures forall t :: t in r <==> t in ts && t.session == sid
  {
    Where(ts, InSession(sid))
  }
}
