/** Laws of the reservation path: what a successful Reserve does to the
    ticket count, which requests it refuses afterwards, and how
    CancelReservation undoes it. */
module Booking {
  import opened Errors
  import opened Tables
  import opened Model
  import Showtimes
  import ShowtimeSeats
  import opened Reservations

  /** The reservation a successful Reserve appends, under the next id. */
  lemma ReserveAppends(db: Db, userId: Id, showtimeId: Id, seatId: Id)
    requires Valid(db) && Reserve(db, userId, showtimeId, seatId).Ok?
    ensures Reserve(db, userId, showtimeId, seatId).value.reservations.rows ==
              db.reservations.rows + [Row(db.reservations.nextId, Reservation(showtimeId, seatId, userId))]
    ensures forall x :: x in db.reservations.rows ==> x.id < db.reservations.nextId
  {
  }

  /** Appending a new row adds it to the count of its showtime only. */
  lemma CountAfterAppend(rows: seq<Row<Reservation>>, added: Row<Reservation>, showtimeId: Id)
    requires added !in rows
    ensures |set x | x in rows + [added] && x.val.showtimeId == showtimeId| ==
              |set x | x in rows && x.val.showtimeId == showtimeId| + (if added.val.showtimeId == showtimeId then 1 else 0)
  {
    var before := set x | x in rows && x.val.showtimeId == showtimeId;
    if added.val.showtimeId == showtimeId {
      assert (set x | x in rows + [added] && x.val.showtimeId == showtimeId) == before + {added};
    } else {
      assert (set x | x in rows + [added] && x.val.showtimeId == showtimeId) == before;
    }
  }

  /** A successful Reserve adds one reservation to the showtime's count
      and leaves every other showtime's count as it was. */
  lemma ReserveCountsOne(db: Db, userId: Id, showtimeId: Id, seatId: Id, other: Id)
    requires Valid(db) && Reserve(db, userId, showtimeId, seatId).Ok?
    ensures ReservationCount(Reserve(db, userId, showtimeId, seatId).value, showtimeId) ==
              ReservationCount(db, showtimeId) + 1
    ensures other != showtimeId ==>
              ReservationCount(Reserve(db, userId, showtimeId, seatId).value, other) == ReservationCount(db, other)
  {
    var added := Row(db.reservations.nextId, Reservation(showtimeId, seatId, userId));
    ReserveAppends(db, userId, showtimeId, seatId);
    CountAfterAppend(db.reservations.rows, added, showtimeId);
    CountAfterAppend(db.reservations.rows, added, other);
  }

  /** A successful Reserve takes one ticket: the remaining count of the
      showtime drops by one, and is refused as sold out when none is left. */
  lemma ReserveTakesOneTicket(db: Db, userId: Id, seatId: Id, showtime: Row<Showtime>, hall: Hall)
    requires Valid(db) && Reserve(db, userId, showtime.id, seatId).Ok?
    requires Row(showtime.val.hallId, hall) in db.halls.rows
    requires GetRemainingTickets(db, showtime).Ok?
    ensures GetRemainingTickets(Reserve(db, userId, showtime.id, seatId).value, showtime) ==
              (if GetRemainingTickets(db, showtime).value - 1 <= 0 then Err(NoTicketsAvailable)
               else Ok(GetRemainingTickets(db, showtime).value - 1))
  {
    var d := Reserve(db, userId, showtime.id, seatId).value;
    ReserveKeepsValid(db, userId, showtime.id, seatId);
    ReserveCountsOne(db, userId, showtime.id, seatId, showtime.id);
    OneMoreReservation(db, d, showtime, hall);
  }

  /** One more reservation for a showtime leaves one ticket fewer. */
  lemma OneMoreReservation(db: Db, d: Db, showtime: Row<Showtime>, hall: Hall)
    requires Valid(db) && Valid(d) && d.halls == db.halls && Row(showtime.val.hallId, hall) in db.halls.rows
    requires ReservationCount(d, showtime.id) == ReservationCount(db, showtime.id) + 1
    requires GetRemainingTickets(db, showtime).Ok?
    ensures GetRemainingTickets(d, showtime) ==
              (if GetRemainingTickets(db, showtime).value - 1 <= 0 then Err(NoTicketsAvailable)
               else Ok(GetRemainingTickets(db, showtime).value - 1))
  {
    RemainingTicketsCount(db, showtime, hall);
    RemainingTicketsCount(d, showtime, hall);
  }

  /** After a successful Reserve the store still has the showtime and its
      hall, and the same request's first checks pass or report a sell-out. */
  lemma ReserveAgainReachesUserCheck(db: Db, userId: Id, showtimeId: Id, seatId: Id)
    requires Valid(db) && Reserve(db, userId, showtimeId, seatId).Ok?
    ensures Showtimes.GetShowtimeByID(Reserve(db, userId, showtimeId, seatId).value, showtimeId) ==
              Showtimes.GetShowtimeByID(db, showtimeId)
    ensures Showtimes.GetShowtimeByID(db, showtimeId).Ok?
    ensures GetRemainingTickets(Reserve(db, userId, showtimeId, seatId).value,
                                Showtimes.GetShowtimeByID(db, showtimeId).value) != Err(NotFound)
  {
    var x := ReserveSucceeded(db, userId, showtimeId, seatId);
    var st :| st in db.showtimes.rows && st.id == showtimeId && GetRemainingTickets(db, st).Ok?;
    IncreasingHasUniqueIds(db.showtimes.rows);
    assert Showtimes.GetShowtimeByID(db, showtimeId).value == st;
  }

  /** A user holds at most one reservation per showtime: after a successful
      Reserve the same user is refused for that showtime on any seat, as
      sold out or as already holding a reservation. */
  lemma SameUserRefused(db: Db, userId: Id, showtimeId: Id, seatId: Id, seatId': Id)
    requires Valid(db) && Reserve(db, userId, showtimeId, seatId).Ok?
    ensures Reserve(Reserve(db, userId, showtimeId, seatId).value, userId, showtimeId, seatId').Err?
    ensures Reserve(Reserve(db, userId, showtimeId, seatId).value, userId, showtimeId, seatId').error in
              {NoTicketsAvailable, AlreadyReserved}
  {
    var d := Reserve(db, userId, showtimeId, seatId).value;
    ReserveAgainReachesUserCheck(db, userId, showtimeId, seatId);
    ReserveAppends(db, userId, showtimeId, seatId);
    var added := Row(db.reservations.nextId, Reservation(showtimeId, seatId, userId));
    assert added in GetReservationsByUserID(d, userId);
    assert HoldsShowtime(GetReservationsByUserID(d, userId), showtimeId);
  }

  /** A (showtime, seat) pair is sold once: after a successful Reserve
      any other user is refused for the same seat, as sold out, as already
      holding a reservation for the showtime, or by the unique index. */
  lemma SameSeatRefused(db: Db, userId: Id, showtimeId: Id, seatId: Id, userId': Id)
    requires Valid(db) && Reserve(db, userId, showtimeId, seatId).Ok?
    ensures Reserve(Reserve(db, userId, showtimeId, seatId).value, userId', showtimeId, seatId).Err?
    ensures Reserve(Reserve(db, userId, showtimeId, seatId).value, userId', showtimeId, seatId).error in
              {NoTicketsAvailable, AlreadyReserved, DuplicateKey}
  {
    var d := Reserve(db, userId, showtimeId, seatId).value;
    ReserveAgainReachesUserCheck(db, userId, showtimeId, seatId);
    ReserveAppends(db, userId, showtimeId, seatId);
    var added := Row(db.reservations.nextId, Reservation(showtimeId, seatId, userId));
    assert added in d.reservations.rows;
    assert !KeyFree(d.reservations.rows, TicketKey, (showtimeId, seatId));
    var st := Showtimes.GetShowtimeByID(d, showtimeId).value;
    var again := Reserve(d, userId', showtimeId, seatId);
    if GetRemainingTickets(d, st).Err? {
      assert again == Err(NoTicketsAvailable);
    } else if HoldsShowtime(GetReservationsByUserID(d, userId'), showtimeId) {
      assert again == Err(AlreadyReserved);
    } else {
      assert InsertChecked(d.reservations, Reservation(showtimeId, seatId, userId'), Unchecked, TicketKey) ==
             Err(DuplicateKey);
      assert again == Err(DuplicateKey);
    }
  }

  /** Cancelling the reservation a Reserve just made, when the seat was
      available before, restores every table; only the reservations' id
      counter has moved on, as a database sequence does. */
  lemma ReserveThenCancel(db: Db, userId: Id, showtimeId: Id, seatId: Id)
    requires Valid(db) && Reserve(db, userId, showtimeId, seatId).Ok?
    requires forall x :: x in db.showtimeSeats.rows && SlotKey(x.val) == (showtimeId, seatId) ==> x.val.status == Available
    ensures CancelReservation(Reserve(db, userId, showtimeId, seatId).value, db.reservations.nextId) ==
              Ok(db.(reservations := Table(db.reservations.rows, db.reservations.nextId + 1)))
  {
    var d := Reserve(db, userId, showtimeId, seatId).value;
    var n := db.reservations.nextId;
    var res := Reservation(showtimeId, seatId, userId);
    var x := ReserveSucceeded(db, userId, showtimeId, seatId);
    var locked := x.val.(status := Locked);
    ReserveKeepsValid(db, userId, showtimeId, seatId);
    ReserveAppends(db, userId, showtimeId, seatId);
    IncreasingHasUniqueIds(d.reservations.rows);
    LookupStored(d.reservations.rows, n, res);
    assert GetReservationByID(d, n) == Ok(Row(n, res));
    RemoveLast(db.reservations.rows, Row(n, res));
    var released := d.(reservations := Table(Remove(d.reservations.rows, n), d.reservations.nextId));
    assert released == db.(reservations := Table(db.reservations.rows, n + 1), showtimeSeats := d.showtimeSeats);
    RemoveKeeps(d.reservations, n, TicketKey, Unchecked);
    IncreasingHasUniqueIds(db.showtimeSeats.rows);
    ReplaceMembers(db.showtimeSeats.rows, x.id, locked, Row(x.id, locked));
    ShowtimeSeats.GetShowtimeSeatFindsStored(released, Row(x.id, locked));
    ShowtimeSeats.UpdateShowtimeSeatStatusSpec(released, x.id, Available, locked);
    ReplaceTwice(db.showtimeSeats.rows, x.id, locked, x.val);
    ReplaceSame(db.showtimeSeats.rows, x.id, x.val);
  }

  /** Cancel followed by Reserve on the same (showtime, seat): once the
      reservation a Reserve made is cancelled, the same request succeeds
      again, locks the same ShowtimeSeat, and stores the same reservation
      under the next id. */
  lemma ReserveCancelReserve(db: Db, userId: Id, showtimeId: Id, seatId: Id)
    requires Valid(db) && Reserve(db, userId, showtimeId, seatId).Ok?
    requires forall x :: x in db.showtimeSeats.rows && SlotKey(x.val) == (showtimeId, seatId) ==> x.val.status == Available
    ensures CancelReservation(Reserve(db, userId, showtimeId, seatId).value, db.reservations.nextId).Ok?
    ensures Reserve(CancelReservation(Reserve(db, userId, showtimeId, seatId).value, db.reservations.nextId).value,
                    userId, showtimeId, seatId).Ok?
    ensures Reserve(CancelReservation(Reserve(db, userId, showtimeId, seatId).value, db.reservations.nextId).value,
                    userId, showtimeId, seatId).value ==
              Reserve(db, userId, showtimeId, seatId).value.(
                reservations := Table(db.reservations.rows +
                                        [Row(db.reservations.nextId + 1, Reservation(showtimeId, seatId, userId))],
                                      db.reservations.nextId + 2))
  {
    ReserveThenCancel(db, userId, showtimeId, seatId);
    ReserveAfterCounterMoved(db, userId, showtimeId, seatId);
  }

  /** With only the reservations' id counter moved on, the same request
      succeeds again, locks the same ShowtimeSeat and stores the same
      reservation under the next id. */
  lemma ReserveAfterCounterMoved(db: Db, userId: Id, showtimeId: Id, seatId: Id)
    requires Valid(db) && Reserve(db, userId, showtimeId, seatId).Ok?
    ensures Reserve(db.(reservations := Table(db.reservations.rows, db.reservations.nextId + 1)),
                    userId, showtimeId, seatId) ==
              Ok(Reserve(db, userId, showtimeId, seatId).value.(
                   reservations := Table(db.reservations.rows +
                                           [Row(db.reservations.nextId + 1, Reservation(showtimeId, seatId, userId))],
                                         db.reservations.nextId + 2)))
  {
    var cancelled := db.(reservations := Table(db.reservations.rows, db.reservations.nextId + 1));
    assert Valid(cancelled);
    var x := ReserveSucceeded(db, userId, showtimeId, seatId);
    var st :| st in db.showtimes.rows && st.id == showtimeId && GetRemainingTickets(db, st).Ok?;
    RemainingTicketsSameRows(db, cancelled, st);
    ReserveSucceedsWhen(cancelled, userId, seatId, st, x);
    var y := ReserveSucceeded(cancelled, userId, showtimeId, seatId);
    assert x == y;
  }

  /** The ticket count reads only the halls and the reservation rows. */
  lemma RemainingTicketsSameRows(db: Db, d: Db, showtime: Row<Showtime>)
    requires d.halls == db.halls && d.reservations.rows == db.reservations.rows
    ensures GetRemainingTickets(d, showtime) == GetRemainingTickets(db, showtime)
  {
    assert ReservationsOfShowtime(d, showtime.id) == ReservationsOfShowtime(db, showtime.id);
  }
}
