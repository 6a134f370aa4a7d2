/** The invariant that ties reservations to seat statuses, and its
    preservation by Reserve and CancelReservation. A ShowtimeSeat is locked
    exactly when a reservation holds its (showtime, seat) pair; hence, per
    showtime, the locked ShowtimeSeats and the reservations are equally
    many. */
module Consistency {
  import opened Errors
  import opened Tables
  import opened Model
  import ShowtimeSeats
  import Reservations

  /** Some reservation holds the (showtime, seat) pair. */
  ghost predicate Reserved(db: Db, key: (Id, Id)) {
    exists x :: x in db.reservations.rows && TicketKey(x.val) == key
  }

  ghost predicate LockedExactlyWhenReserved(db: Db) {
    forall x :: x in db.showtimeSeats.rows ==> (x.val.status == Locked <==> Reserved(db, SlotKey(x.val)))
  }

  ghost predicate ReservationsHaveShowtimeSeats(db: Db) {
    forall r :: r in db.reservations.rows ==>
      exists x :: x in db.showtimeSeats.rows && SlotKey(x.val) == TicketKey(r.val)
  }

  /** Reserve refuses a second reservation of a user for a showtime. */
  ghost predicate OneReservationPerUserAndShowtime(db: Db) {
    forall r1, r2 :: (r1 in db.reservations.rows && r2 in db.reservations.rows &&
      r1.val.userId == r2.val.userId && r1.val.showtimeId == r2.val.showtimeId) ==> r1 == r2
  }

  /** A ShowtimeSeat pairs an existing showtime with an existing seat of
      that showtime's hall, as the initializer builds it. */
  ghost predicate Anchored(db: Db, ss: ShowtimeSeat) {
    exists st, s :: st in db.showtimes.rows && s in db.seats.rows &&
      st.id == ss.showtimeId && s.id == ss.seatId && s.val.hallId == st.val.hallId
  }

  ghost predicate ShowtimeSeatsAnchored(db: Db) {
    forall x :: x in db.showtimeSeats.rows ==> Anchored(db, x.val)
  }

  /** The seats' foreign key to their hall. */
  ghost predicate SeatsInHalls(db: Db) {
    forall s :: s in db.seats.rows ==> exists h :: h in db.halls.rows && h.id == s.val.hallId
  }

  ghost predicate Consistent(db: Db) {
    && LockedExactlyWhenReserved(db)
    && ReservationsHaveShowtimeSeats(db)
    && OneReservationPerUserAndShowtime(db)
    && ShowtimeSeatsAnchored(db)
    && SeatsInHalls(db)
  }

  /** The empty store satisfies every constraint and the invariant. */
  lemma EmptyIsConsistent()
    ensures Valid(EmptyDb()) && Consistent(EmptyDb())
  {
  }

  // ----- Counting -----

  /** The locked ShowtimeSeats of a showtime, and its reservations. */
  ghost function LockedOf(db: Db, showtimeId: Id): set<Row<ShowtimeSeat>> {
    set x | x in db.showtimeSeats.rows && x.val.showtimeId == showtimeId && x.val.status == Locked
  }

  ghost function HeldOf(db: Db, showtimeId: Id): set<Row<Reservation>> {
    set x | x in db.reservations.rows && x.val.showtimeId == showtimeId
  }

  ghost function LockedCount(db: Db, showtimeId: Id): nat {
    |LockedOf(db, showtimeId)|
  }

  /** The (showtime, seat) pairs of those records. */
  ghost function LockedKeys(db: Db, showtimeId: Id): set<(Id, Id)> {
    set x | x in LockedOf(db, showtimeId) :: SlotKey(x.val)
  }

  ghost function HeldKeys(db: Db, showtimeId: Id): set<(Id, Id)> {
    set x | x in HeldOf(db, showtimeId) :: TicketKey(x.val)
  }

  function SlotKeyOfRow(): Row<ShowtimeSeat> -> (Id, Id) {
    (x: Row<ShowtimeSeat>) => SlotKey(x.val)
  }

  function TicketKeyOfRow(): Row<Reservation> -> (Id, Id) {
    (x: Row<Reservation>) => TicketKey(x.val)
  }

  lemma LockedKeysCount(db: Db, showtimeId: Id)
    requires UniqueKeys(db.showtimeSeats.rows, SlotKey)
    ensures |LockedKeys(db, showtimeId)| == LockedCount(db, showtimeId)
  {
    InjectiveImage(LockedOf(db, showtimeId), LockedKeys(db, showtimeId), SlotKeyOfRow());
  }

  lemma HeldKeysCount(db: Db, showtimeId: Id)
    requires UniqueKeys(db.reservations.rows, TicketKey)
    ensures |HeldKeys(db, showtimeId)| == Reservations.ReservationCount(db, showtimeId)
  {
    InjectiveImage(HeldOf(db, showtimeId), HeldKeys(db, showtimeId), TicketKeyOfRow());
    assert HeldOf(db, showtimeId) == set x | x in db.reservations.rows && x.val.showtimeId == showtimeId;
  }

  lemma LockedKeysAreHeld(db: Db, showtimeId: Id)
    requires LockedExactlyWhenReserved(db)
    ensures LockedKeys(db, showtimeId) <= HeldKeys(db, showtimeId)
  {
    forall k | k in LockedKeys(db, showtimeId) ensures k in HeldKeys(db, showtimeId) {
      var x :| x in LockedOf(db, showtimeId) && SlotKey(x.val) == k;
      assert Reserved(db, SlotKey(x.val));
      var r :| r in db.reservations.rows && TicketKey(r.val) == k;
      assert r in HeldOf(db, showtimeId);
    }
  }

  lemma HeldKeysAreLocked(db: Db, showtimeId: Id)
    requires LockedExactlyWhenReserved(db) && ReservationsHaveShowtimeSeats(db)
    ensures HeldKeys(db, showtimeId) <= LockedKeys(db, showtimeId)
  {
    forall k | k in HeldKeys(db, showtimeId) ensures k in LockedKeys(db, showtimeId) {
      var r :| r in HeldOf(db, showtimeId) && TicketKey(r.val) == k;
      var x :| x in db.showtimeSeats.rows && SlotKey(x.val) == k;
      assert Reserved(db, SlotKey(x.val));
      assert x in LockedOf(db, showtimeId);
    }
  }

  /** Per showtime, the locked ShowtimeSeats and the reservations are equally
      many: the two unique indexes map both sets one-to-one onto the same set
      of (showtime, seat) pairs. */
  lemma LockedCountIsReservationCount(db: Db, showtimeId: Id)
    requires UniqueKeys(db.showtimeSeats.rows, SlotKey) && UniqueKeys(db.reservations.rows, TicketKey)
    requires LockedExactlyWhenReserved(db) && ReservationsHaveShowtimeSeats(db)
    ensures LockedCount(db, showtimeId) == Reservations.ReservationCount(db, showtimeId)
  {
    LockedKeysCount(db, showtimeId);
    HeldKeysCount(db, showtimeId);
    LockedKeysAreHeld(db, showtimeId);
    HeldKeysAreLocked(db, showtimeId);
    assert LockedKeys(db, showtimeId) == HeldKeys(db, showtimeId);
  }

  /** With the invariant, the remaining tickets of a showtime are the
      SeatCount of its hall less its locked ShowtimeSeats. */
  lemma RemainingTicketsFromLocked(db: Db, showtime: Row<Showtime>, hall: Hall)
    requires Valid(db) && LockedExactlyWhenReserved(db) && ReservationsHaveShowtimeSeats(db)
    requires Row(showtime.val.hallId, hall) in db.halls.rows
    ensures Reservations.GetRemainingTickets(db, showtime) ==
              (if hall.seatCount - LockedCount(db, showtime.id) <= 0 then Err(NoTicketsAvailable)
               else Ok(hall.seatCount - LockedCount(db, showtime.id)))
  {
    LockedCountIsReservationCount(db, showtime.id);
    Reservations.RemainingTicketsCount(db, showtime, hall);
  }

  // ----- Reserve -----

  /** After appending a reservation, a pair is reserved when it was before
      or is the new reservation's. */
  lemma ReservedAfterBooking(db: Db, d: Db, n: Id, res: Reservation, key: (Id, Id))
    requires d.reservations.rows == db.reservations.rows + [Row(n, res)]
    ensures Reserved(d, key) <==> Reserved(db, key) || key == TicketKey(res)
  {
    if Reserved(d, key) && !Reserved(db, key) {
      var y :| y in d.reservations.rows && TicketKey(y.val) == key;
      assert y == Row(n, res);
    }
    if key == TicketKey(res) {
      assert Row(n, res) in d.reservations.rows;
    }
  }

  /** The store after a booking: the reservation appended and the pair's
      ShowtimeSeat locked. */
  ghost predicate Booked(db: Db, d: Db, x: Row<ShowtimeSeat>, n: Id, res: Reservation) {
    && x in db.showtimeSeats.rows && SlotKey(x.val) == TicketKey(res)
    && d == db.(reservations := Table(db.reservations.rows + [Row(n, res)], n + 1),
                showtimeSeats := Table(Replace(db.showtimeSeats.rows, x.id, x.val.(status := Locked)),
                                       db.showtimeSeats.nextId))
  }

  lemma BookingKeepsLockedExactlyWhenReserved(db: Db, d: Db, x: Row<ShowtimeSeat>, n: Id, res: Reservation)
    requires Valid(db) && Consistent(db) && Booked(db, d, x, n, res)
    ensures LockedExactlyWhenReserved(d)
  {
    var v := x.val.(status := Locked);
    forall y | y in d.showtimeSeats.rows ensures (y.val.status == Locked <==> Reserved(d, SlotKey(y.val))) {
      ReplaceMembers(db.showtimeSeats.rows, x.id, v, y);
      ReservedAfterBooking(db, d, n, res, SlotKey(y.val));
      if y != Row(x.id, v) {
        assert SlotKey(y.val) != SlotKey(x.val);
      }
    }
  }

  lemma BookingKeepsReservationSeats(db: Db, d: Db, x: Row<ShowtimeSeat>, n: Id, res: Reservation)
    requires Valid(db) && ReservationsHaveShowtimeSeats(db) && Booked(db, d, x, n, res)
    ensures ReservationsHaveShowtimeSeats(d)
  {
    var v := x.val.(status := Locked);
    IncreasingHasUniqueIds(db.showtimeSeats.rows);
    ReplaceMembers(db.showtimeSeats.rows, x.id, v, Row(x.id, v));
    forall r | r in d.reservations.rows
      ensures exists z :: z in d.showtimeSeats.rows && SlotKey(z.val) == TicketKey(r.val)
    {
      if r != Row(n, res) {
        var z :| z in db.showtimeSeats.rows && SlotKey(z.val) == TicketKey(r.val);
        ReplaceMembers(db.showtimeSeats.rows, x.id, v, z);
        if z.id == x.id {
          assert SlotKey(v) == SlotKey(z.val);
        }
      }
    }
  }

  lemma BookingKeepsAnchored(db: Db, d: Db, x: Row<ShowtimeSeat>, n: Id, res: Reservation)
    requires ShowtimeSeatsAnchored(db) && Booked(db, d, x, n, res)
    ensures ShowtimeSeatsAnchored(d)
  {
    var v := x.val.(status := Locked);
    forall y | y in d.showtimeSeats.rows ensures Anchored(d, y.val) {
      ReplaceMembers(db.showtimeSeats.rows, x.id, v, y);
      if y == Row(x.id, v) {
        assert Anchored(db, x.val);
      } else {
        assert Anchored(db, y.val);
      }
    }
  }

  /** The user held no reservation for the showtime, so after the booking
      they hold exactly one. */
  lemma BookingKeepsOnePerUser(db: Db, d: Db, x: Row<ShowtimeSeat>, n: Id, res: Reservation)
    requires OneReservationPerUserAndShowtime(db) && Booked(db, d, x, n, res)
    requires forall r :: r in db.reservations.rows && r.val.userId == res.userId ==> r.val.showtimeId != res.showtimeId
    requires forall r :: r in db.reservations.rows ==> r.id < n
    ensures OneReservationPerUserAndShowtime(d)
  {
  }

  /** A successful Reserve keeps every table constraint and the invariant. */
  lemma ReserveKeepsConsistent(db: Db, userId: Id, showtimeId: Id, seatId: Id)
    requires Valid(db) && Consistent(db) && Reservations.Reserve(db, userId, showtimeId, seatId).Ok?
    ensures Consistent(Reservations.Reserve(db, userId, showtimeId, seatId).value)
  {
    var d := Reservations.Reserve(db, userId, showtimeId, seatId).value;
    var res := Reservation(showtimeId, seatId, userId);
    var n := db.reservations.nextId;
    var x := Reservations.ReserveSucceeded(db, userId, showtimeId, seatId);
    assert Booked(db, d, x, n, res);
    BookingKeepsLockedExactlyWhenReserved(db, d, x, n, res);
    BookingKeepsReservationSeats(db, d, x, n, res);
    BookingKeepsAnchored(db, d, x, n, res);
    BookingKeepsOnePerUser(db, d, x, n, res);
  }

  // ----- CancelReservation -----

  /** The store after a release: the reservation deleted and the pair's
      ShowtimeSeat available. */
  ghost predicate Released(db: Db, d: Db, x: Row<ShowtimeSeat>, id: Id, res: Reservation) {
    && Row(id, res) in db.reservations.rows
    && x in db.showtimeSeats.rows && SlotKey(x.val) == TicketKey(res)
    && d == db.(reservations := Table(Remove(db.reservations.rows, id), db.reservations.nextId),
                showtimeSeats := Table(Replace(db.showtimeSeats.rows, x.id, x.val.(status := Available)),
                                       db.showtimeSeats.nextId))
  }

  /** After deleting the one reservation of a pair, the pair is free and
      every other pair is reserved as before. */
  lemma ReservedAfterRelease(db: Db, d: Db, x: Row<ShowtimeSeat>, id: Id, res: Reservation, key: (Id, Id))
    requires Valid(db) && Released(db, d, x, id, res)
    ensures Reserved(d, key) <==> Reserved(db, key) && key != TicketKey(res)
  {
    if Reserved(d, key) {
      var y :| y in d.reservations.rows && TicketKey(y.val) == key;
      assert y != Row(id, res);
    }
    if Reserved(db, key) && key != TicketKey(res) {
      var y :| y in db.reservations.rows && TicketKey(y.val) == key;
      assert y.id != id;
    }
  }

  lemma ReleaseKeepsLockedExactlyWhenReserved(db: Db, d: Db, x: Row<ShowtimeSeat>, id: Id, res: Reservation)
    requires Valid(db) && LockedExactlyWhenReserved(db) && Released(db, d, x, id, res)
    ensures LockedExactlyWhenReserved(d)
  {
    var v := x.val.(status := Available);
    forall y | y in d.showtimeSeats.rows ensures (y.val.status == Locked <==> Reserved(d, SlotKey(y.val))) {
      ReplaceMembers(db.showtimeSeats.rows, x.id, v, y);
      ReservedAfterRelease(db, d, x, id, res, SlotKey(y.val));
      if y != Row(x.id, v) {
        assert SlotKey(y.val) != SlotKey(x.val);
      }
    }
  }

  lemma ReleaseKeepsReservationSeats(db: Db, d: Db, x: Row<ShowtimeSeat>, id: Id, res: Reservation)
    requires Valid(db) && ReservationsHaveShowtimeSeats(db) && Released(db, d, x, id, res)
    ensures ReservationsHaveShowtimeSeats(d)
  {
    var v := x.val.(status := Available);
    IncreasingHasUniqueIds(db.showtimeSeats.rows);
    forall r | r in d.reservations.rows
      ensures exists z :: z in d.showtimeSeats.rows && SlotKey(z.val) == TicketKey(r.val)
    {
      assert r in db.reservations.rows;
      var z :| z in db.showtimeSeats.rows && SlotKey(z.val) == TicketKey(r.val);
      ReplaceMembers(db.showtimeSeats.rows, x.id, v, z);
      if z.id == x.id {
        ReplaceMembers(db.showtimeSeats.rows, x.id, v, Row(x.id, v));
        assert SlotKey(v) == SlotKey(z.val);
      }
    }
  }

  lemma ReleaseKeepsAnchored(db: Db, d: Db, x: Row<ShowtimeSeat>, id: Id, res: Reservation)
    requires ShowtimeSeatsAnchored(db) && Released(db, d, x, id, res)
    ensures ShowtimeSeatsAnchored(d)
  {
    var v := x.val.(status := Available);
    forall y | y in d.showtimeSeats.rows ensures Anchored(d, y.val) {
      ReplaceMembers(db.showtimeSeats.rows, x.id, v, y);
      if y == Row(x.id, v) {
        assert Anchored(db, x.val);
      } else {
        assert Anchored(db, y.val);
      }
    }
  }

  /** A successful CancelReservation keeps the invariant. */
  lemma CancelKeepsConsistent(db: Db, reservationId: Id)
    requires Valid(db) && Consistent(db) && Reservations.CancelReservation(db, reservationId).Ok?
    ensures Consistent(Reservations.CancelReservation(db, reservationId).value)
  {
    var d := Reservations.CancelReservation(db, reservationId).value;
    var res, x := Reservations.CancelSucceeded(db, reservationId);
    assert Released(db, d, x, reservationId, res);
    ReleaseKeepsLockedExactlyWhenReserved(db, d, x, reservationId, res);
    ReleaseKeepsReservationSeats(db, d, x, reservationId, res);
    ReleaseKeepsAnchored(db, d, x, reservationId, res);
  }

  /** Under the invariant the ShowtimeSeat of a reservation's pair is locked. */
  lemma ReservedIsLocked(db: Db, x: Row<ShowtimeSeat>, r: Row<Reservation>)
    requires LockedExactlyWhenReserved(db)
    requires x in db.showtimeSeats.rows && r in db.reservations.rows && TicketKey(r.val) == SlotKey(x.val)
    ensures x.val.status == Locked
  {
    assert Reserved(db, SlotKey(x.val));
  }

  /** With the invariant in place, an existing reservation can always be
      cancelled: its ShowtimeSeat exists and is locked. */
  lemma CancelSucceedsWhenConsistent(db: Db, reservationId: Id, res: Reservation)
    requires Valid(db) && LockedExactlyWhenReserved(db) && ReservationsHaveShowtimeSeats(db)
    requires Row(reservationId, res) in db.reservations.rows
    ensures Reservations.CancelReservation(db, reservationId).Ok?
  {
    var x :| x in db.showtimeSeats.rows && SlotKey(x.val) == TicketKey(res);
    ReservedIsLocked(db, x, Row(reservationId, res));
    Reservations.CancelSucceedsWhen(db, reservationId, res, x);
  }
}
