/** The reservation service: capacity accounting, reserving a seat for a
    showtime and cancelling a reservation, and the reservation lookups. */
module Reservations {
  import opened Errors
  import opened Tables
  import opened Model
  import Showtimes
  import ShowtimeSeats

  /** The reservations for one showtime, in table order. */
  function ReservationsOfShowtime(db: Db, showtimeId: Id): (r: seq<Row<Reservation>>)
    ensures forall x :: x in r ==> x in db.reservations.rows && x.val.showtimeId == showtimeId
    ensures forall x :: x in db.reservations.rows && x.val.showtimeId == showtimeId ==> x in r
  {
    Where(db.reservations.rows, OfShowtime(showtimeId))
  }

  /** The filter of the query by showtime. */
  function OfShowtime(showtimeId: Id): Row<Reservation> -> bool {
    (x: Row<Reservation>) => x.val.showtimeId == showtimeId
  }

  /** The number of distinct reservations held for a showtime. */
  ghost function ReservationCount(db: Db, showtimeId: Id): nat {
    |set x | x in db.reservations.rows && x.val.showtimeId == showtimeId|
  }

  /** In a well-formed table the query returns each reservation of the
      showtime once. */
  lemma ReservationsOfShowtimeCount(db: Db, showtimeId: Id)
    requires WellFormed(db.reservations)
    ensures |ReservationsOfShowtime(db, showtimeId)| == ReservationCount(db, showtimeId)
  {
    WhereCount(db.reservations.rows, OfShowtime(showtimeId));
    assert (set x | x in db.reservations.rows && OfShowtime(showtimeId)(x)) ==
           (set x | x in db.reservations.rows && x.val.showtimeId == showtimeId);
  }

  /** GetReservationsByUserID(Tx): exactly the user's reservations. */
  function GetReservationsByUserID(db: Db, userId: Id): (r: seq<Row<Reservation>>)
    ensures forall x :: x in r ==> x in db.reservations.rows && x.val.userId == userId
    ensures forall x :: x in db.reservations.rows && x.val.userId == userId ==> x in r
  {
    Where(db.reservations.rows, (x: Row<Reservation>) => x.val.userId == userId)
  }

  /** The reservation with the given id; a missing one is ErrNotFound. */
  function GetReservationByID(db: Db, reservationId: Id): (r: Result<Row<Reservation>>)
    ensures r.Ok? ==> r.value.id == reservationId && r.value in db.reservations.rows
    ensures r.Err? <==> forall x :: x in db.reservations.rows ==> x.id != reservationId
    ensures r.Err? ==> r.error == NotFound
  {
    match Lookup(db.reservations.rows, reservationId)
    case None => Err(NotFound)
    case Some(x) => Ok(Row(reservationId, x))
  }

  /** GetRemainingTicketsTx: the hall's SeatCount less the showtime's
      reservations. A missing hall is ErrNotFound; a result that is not
      positive is ErrNoTicketsAvailable. */
  function GetRemainingTickets(db: Db, showtime: Row<Showtime>): (r: Result<int>)
    ensures r.Ok? ==> r.value > 0
    ensures r.Err? ==> r.error == NotFound || r.error == NoTicketsAvailable
    ensures r == Err(NotFound) <==> forall x :: x in db.halls.rows ==> x.id != showtime.val.hallId
  {
    var reservations := ReservationsOfShowtime(db, showtime.id);
    match Lookup(db.halls.rows, showtime.val.hallId)
    case None => Err(NotFound)
    case Some(hall) =>
      var remaining := hall.seatCount - |reservations|;
      if remaining <= 0 then Err(NoTicketsAvailable) else Ok(remaining)
  }

  /** In a valid store the remaining tickets are the SeatCount of the
      showtime's hall less the number of its reservations, and there are
      none left exactly when that difference is not positive. */
  lemma RemainingTicketsCount(db: Db, showtime: Row<Showtime>, hall: Hall)
    requires Valid(db) && Row(showtime.val.hallId, hall) in db.halls.rows
    ensures GetRemainingTickets(db, showtime) ==
              (if hall.seatCount - ReservationCount(db, showtime.id) <= 0 then Err(NoTicketsAvailable)
               else Ok(hall.seatCount - ReservationCount(db, showtime.id)))
  {
    IncreasingHasUniqueIds(db.halls.rows);
    LookupStored(db.halls.rows, showtime.val.hallId, hall);
    ReservationsOfShowtimeCount(db, showtime.id);
  }

  /** Whether one of the given reservations is for the showtime: the loop
      over the user's reservations. */
  predicate HoldsShowtime(reservations: seq<Row<Reservation>>, showtimeId: Id) {
    exists x :: x in reservations && x.val.showtimeId == showtimeId
  }

  /** Reserve, one transaction: the showtime must exist, tickets must
      remain, the user must not hold a reservation for the showtime (on any
      seat); then the reservation is inserted under the unique index
      (showtime, seat), and the ShowtimeSeat for the pair is looked up and
      moved to locked. */
  function Reserve(db: Db, userId: Id, showtimeId: Id, seatId: Id): (r: Result<Db>)
    ensures (forall x :: x in db.showtimes.rows ==> x.id != showtimeId) ==> r == Err(ShowtimeNotExist)
    ensures r.Ok? ==> r.value.reservations == Insert(db.reservations, Reservation(showtimeId, seatId, userId))
    ensures r.Ok? ==> r.value.(reservations := db.reservations, showtimeSeats := db.showtimeSeats) == db
  {
    match Showtimes.GetShowtimeByID(db, showtimeId)
    case Err(_) => Err(ShowtimeNotExist)
    case Ok(showtime) =>
      match GetRemainingTickets(db, showtime)
      case Err(e) => Err(e)
      case Ok(_) =>
        if HoldsShowtime(GetReservationsByUserID(db, userId), showtimeId) then Err(AlreadyReserved)
        else match InsertChecked(db.reservations, Reservation(showtimeId, seatId, userId), Unchecked, TicketKey)
          case Err(e) => Err(e)
          case Ok(reservations) =>
            var booked := db.(reservations := reservations);
            match ShowtimeSeats.GetShowtimeSeatByShowtimeIDSeatID(booked, showtimeId, seatId)
            case Err(e) => Err(e)
            case Ok(slot) => ShowtimeSeats.UpdateShowtimeSeatStatus(booked, slot.id, Locked)
  }

  /** What a successful Reserve required and what it did to the
      ShowtimeSeats: the showtime existed with tickets left, the user held
      no reservation for it, the pair was not reserved, and the pair's
      ShowtimeSeat, not locked before, is now locked, with every other
      record unchanged. */
  lemma ReserveSucceeded(db: Db, userId: Id, showtimeId: Id, seatId: Id) returns (x: Row<ShowtimeSeat>)
    requires Valid(db) && Reserve(db, userId, showtimeId, seatId).Ok?
    ensures exists x :: x in db.showtimes.rows && x.id == showtimeId && GetRemainingTickets(db, x).Ok?
    ensures forall x :: x in db.reservations.rows && x.val.userId == userId ==> x.val.showtimeId != showtimeId
    ensures forall x :: x in db.reservations.rows ==> TicketKey(x.val) != (showtimeId, seatId)
    ensures x in db.showtimeSeats.rows && SlotKey(x.val) == (showtimeId, seatId) && x.val.status != Locked
    ensures Reserve(db, userId, showtimeId, seatId).value.showtimeSeats ==
              Table(Replace(db.showtimeSeats.rows, x.id, x.val.(status := Locked)), db.showtimeSeats.nextId)
  {
    var showtime := Showtimes.GetShowtimeByID(db, showtimeId).value;
    var inserted := InsertChecked(db.reservations, Reservation(showtimeId, seatId, userId), Unchecked, TicketKey);
    var held := GetReservationsByUserID(db, userId);
    assert !HoldsShowtime(held, showtimeId);
    forall r | r in db.reservations.rows && r.val.userId == userId ensures r.val.showtimeId != showtimeId {
      assert r in held;
    }
    assert inserted.Ok?;
    assert KeyFree(db.reservations.rows, TicketKey, (showtimeId, seatId));
    var reservations := inserted.value;
    var booked := db.(reservations := reservations);
    var slot := ShowtimeSeats.GetShowtimeSeatByShowtimeIDSeatID(booked, showtimeId, seatId).value;
    var d := Reserve(db, userId, showtimeId, seatId).value;
    var ss :| Row(slot.id, ss) in booked.showtimeSeats.rows && ss.status != Locked &&
              d == booked.(showtimeSeats := Table(Replace(booked.showtimeSeats.rows, slot.id, ss.(status := Locked)),
                                                 booked.showtimeSeats.nextId));
    IncreasingHasUniqueIds(db.showtimeSeats.rows);
    assert slot.val == ss;
    x := slot;
  }

  /** In a valid store the conditions Reserve checks are enough: with the
      showtime present and tickets left, no reservation of the user for the
      showtime, the pair free and its ShowtimeSeat not locked, Reserve
      succeeds. */
  lemma ReserveSucceedsWhen(db: Db, userId: Id, seatId: Id, showtime: Row<Showtime>, slot: Row<ShowtimeSeat>)
    requires Valid(db)
    requires showtime in db.showtimes.rows && GetRemainingTickets(db, showtime).Ok?
    requires forall x :: x in db.reservations.rows && x.val.userId == userId ==> x.val.showtimeId != showtime.id
    requires forall x :: x in db.reservations.rows ==> TicketKey(x.val) != (showtime.id, seatId)
    requires slot in db.showtimeSeats.rows && SlotKey(slot.val) == (showtime.id, seatId) && slot.val.status != Locked
    ensures Reserve(db, userId, showtime.id, seatId).Ok?
  {
    IncreasingHasUniqueIds(db.showtimes.rows);
    LookupStored(db.showtimes.rows, showtime.id, showtime.val);
    assert !HoldsShowtime(GetReservationsByUserID(db, userId), showtime.id);
    var reservations := InsertChecked(db.reservations, Reservation(showtime.id, seatId, userId), Unchecked, TicketKey).value;
    var booked := db.(reservations := reservations);
    assert ShowtimeSeats.GetShowtimeSeatByShowtimeIDSeatID(booked, showtime.id, seatId) == Ok(slot);
    ShowtimeSeats.UpdateShowtimeSeatStatusSpec(booked, slot.id, Locked, slot.val);
  }

  /** The conditions under which a reservation can be made. */
  ghost predicate CanReserve(db: Db, userId: Id, showtimeId: Id, seatId: Id) {
    && (exists x :: x in db.showtimes.rows && x.id == showtimeId && GetRemainingTickets(db, x).Ok?)
    && (forall x :: x in db.reservations.rows && x.val.userId == userId ==> x.val.showtimeId != showtimeId)
    && (forall x :: x in db.reservations.rows ==> TicketKey(x.val) != (showtimeId, seatId))
    && (exists x :: x in db.showtimeSeats.rows && SlotKey(x.val) == (showtimeId, seatId) && x.val.status != Locked)
  }

  /** In a valid store Reserve succeeds exactly when the showtime exists,
      tickets remain, the user holds no reservation for the showtime, the
      (showtime, seat) pair is not reserved, and the pair has a
      ShowtimeSeat that is not locked yet. */
  lemma ReserveOutcome(db: Db, userId: Id, showtimeId: Id, seatId: Id)
    requires Valid(db)
    ensures Reserve(db, userId, showtimeId, seatId).Ok? <==> CanReserve(db, userId, showtimeId, seatId)
  {
    if Reserve(db, userId, showtimeId, seatId).Ok? {
      var x := ReserveSucceeded(db, userId, showtimeId, seatId);
    }
    if CanReserve(db, userId, showtimeId, seatId) {
      var st :| st in db.showtimes.rows && st.id == showtimeId && GetRemainingTickets(db, st).Ok?;
      var x :| x in db.showtimeSeats.rows && SlotKey(x.val) == (showtimeId, seatId) && x.val.status != Locked;
      ReserveSucceedsWhen(db, userId, seatId, st, x);
    }
  }

  // ----- Reserve: which check refuses, in the order they run -----

  /** A stored showtime whose hall is gone: the ticket count fails with
      ErrNotFound before any other check. */
  lemma ReserveHallMissing(db: Db, userId: Id, showtime: Row<Showtime>, seatId: Id)
    requires Valid(db) && showtime in db.showtimes.rows
    requires forall h :: h in db.halls.rows ==> h.id != showtime.val.hallId
    ensures Reserve(db, userId, showtime.id, seatId) == Err(NotFound)
  {
    IncreasingHasUniqueIds(db.showtimes.rows);
    LookupStored(db.showtimes.rows, showtime.id, showtime.val);
  }

  /** A sold-out showtime refuses every user on every seat with
      ErrNoTicketsAvailable, before the user and seat are looked at. */
  lemma ReserveSoldOut(db: Db, userId: Id, showtime: Row<Showtime>, seatId: Id)
    requires Valid(db) && showtime in db.showtimes.rows
    requires GetRemainingTickets(db, showtime) == Err(NoTicketsAvailable)
    ensures Reserve(db, userId, showtime.id, seatId) == Err(NoTicketsAvailable)
  {
    IncreasingHasUniqueIds(db.showtimes.rows);
    LookupStored(db.showtimes.rows, showtime.id, showtime.val);
  }

  /** With tickets left, a user who already holds a reservation for the
      showtime, on any seat, is refused with ErrAlreadyReserved, before
      the seat is looked at. */
  lemma ReserveAlreadyHeld(db: Db, userId: Id, showtime: Row<Showtime>, seatId: Id, held: Row<Reservation>)
    requires Valid(db) && showtime in db.showtimes.rows && GetRemainingTickets(db, showtime).Ok?
    requires held in db.reservations.rows && held.val.userId == userId && held.val.showtimeId == showtime.id
    ensures Reserve(db, userId, showtime.id, seatId) == Err(AlreadyReserved)
  {
    IncreasingHasUniqueIds(db.showtimes.rows);
    LookupStored(db.showtimes.rows, showtime.id, showtime.val);
    assert held in GetReservationsByUserID(db, userId);
  }

  /** Past the user check, a (showtime, seat) pair another reservation
      holds is refused by the unique index with DuplicateKey. */
  lemma ReservePairTaken(db: Db, userId: Id, showtime: Row<Showtime>, seatId: Id, taken: Row<Reservation>)
    requires Valid(db) && showtime in db.showtimes.rows && GetRemainingTickets(db, showtime).Ok?
    requires forall x :: x in db.reservations.rows && x.val.userId == userId ==> x.val.showtimeId != showtime.id
    requires taken in db.reservations.rows && TicketKey(taken.val) == (showtime.id, seatId)
    ensures Reserve(db, userId, showtime.id, seatId) == Err(DuplicateKey)
  {
    IncreasingHasUniqueIds(db.showtimes.rows);
    LookupStored(db.showtimes.rows, showtime.id, showtime.val);
    assert !HoldsShowtime(GetReservationsByUserID(db, userId), showtime.id);
    assert !KeyFree(db.reservations.rows, TicketKey, (showtime.id, seatId));
  }

  /** Past the insert, a pair without a ShowtimeSeat is refused with the
      raw record-not-found error of the lookup. */
  lemma ReserveNoShowtimeSeat(db: Db, userId: Id, showtime: Row<Showtime>, seatId: Id)
    requires Valid(db) && showtime in db.showtimes.rows && GetRemainingTickets(db, showtime).Ok?
    requires forall x :: x in db.reservations.rows && x.val.userId == userId ==> x.val.showtimeId != showtime.id
    requires forall x :: x in db.reservations.rows ==> TicketKey(x.val) != (showtime.id, seatId)
    requires forall x :: x in db.showtimeSeats.rows ==> SlotKey(x.val) != (showtime.id, seatId)
    ensures Reserve(db, userId, showtime.id, seatId) == Err(RecordNotFound)
  {
    IncreasingHasUniqueIds(db.showtimes.rows);
    LookupStored(db.showtimes.rows, showtime.id, showtime.val);
    assert !HoldsShowtime(GetReservationsByUserID(db, userId), showtime.id);
    var inserted := InsertChecked(db.reservations, Reservation(showtime.id, seatId, userId), Unchecked, TicketKey);
    assert inserted.Ok?;
    var booked := db.(reservations := inserted.value);
    assert ShowtimeSeats.GetShowtimeSeatByShowtimeIDSeatID(booked, showtime.id, seatId) == Err(RecordNotFound);
  }

  /** Past the insert, a pair whose ShowtimeSeat is already locked is
      refused with ErrShowtimeSeatStatusNotChange, and the transaction
      rolls the insert back. */
  lemma ReserveSeatLocked(db: Db, userId: Id, showtime: Row<Showtime>, seatId: Id, slot: Row<ShowtimeSeat>)
    requires Valid(db) && showtime in db.showtimes.rows && GetRemainingTickets(db, showtime).Ok?
    requires forall x :: x in db.reservations.rows && x.val.userId == userId ==> x.val.showtimeId != showtime.id
    requires forall x :: x in db.reservations.rows ==> TicketKey(x.val) != (showtime.id, seatId)
    requires slot in db.showtimeSeats.rows && SlotKey(slot.val) == (showtime.id, seatId) && slot.val.status == Locked
    ensures Reserve(db, userId, showtime.id, seatId) == Err(ShowtimeSeatStatusNotChange)
  {
    IncreasingHasUniqueIds(db.showtimes.rows);
    LookupStored(db.showtimes.rows, showtime.id, showtime.val);
    assert !HoldsShowtime(GetReservationsByUserID(db, userId), showtime.id);
    var inserted := InsertChecked(db.reservations, Reservation(showtime.id, seatId, userId), Unchecked, TicketKey);
    assert inserted.Ok?;
    var booked := db.(reservations := inserted.value);
    assert Valid(booked);
    ShowtimeSeats.GetShowtimeSeatFindsStored(booked, slot);
    ShowtimeSeats.UpdateShowtimeSeatStatusSpec(booked, slot.id, Locked, slot.val);
  }

  /** CancelReservation, one transaction: the reservation must exist; it
      is deleted, and the ShowtimeSeat of its (showtime, seat) pair is looked
      up and moved back to available. */
  function CancelReservation(db: Db, reservationId: Id): (r: Result<Db>)
    ensures (forall x :: x in db.reservations.rows ==> x.id != reservationId) ==> r == Err(NotFound)
    ensures r.Ok? ==> r.value.reservations == Table(Remove(db.reservations.rows, reservationId), db.reservations.nextId)
    ensures r.Ok? ==> r.value.(reservations := db.reservations, showtimeSeats := db.showtimeSeats) == db
  {
    match GetReservationByID(db, reservationId)
    case Err(e) => Err(e)
    case Ok(reservation) =>
      var released := db.(reservations := Table(Remove(db.reservations.rows, reservationId), db.reservations.nextId));
      match ShowtimeSeats.GetShowtimeSeatByShowtimeIDSeatID(released, reservation.val.showtimeId, reservation.val.seatId)
      case Err(e) => Err(e)
      case Ok(slot) => ShowtimeSeats.UpdateShowtimeSeatStatus(released, slot.id, Available)
  }

  /** What a successful CancelReservation found and did: the reservation
      existed, and the ShowtimeSeat of its pair, not available before, is
      now available, with every other record unchanged. */
  lemma CancelSucceeded(db: Db, reservationId: Id) returns (res: Reservation, x: Row<ShowtimeSeat>)
    requires Valid(db) && CancelReservation(db, reservationId).Ok?
    ensures Row(reservationId, res) in db.reservations.rows
    ensures x in db.showtimeSeats.rows && SlotKey(x.val) == TicketKey(res) && x.val.status != Available
    ensures CancelReservation(db, reservationId).value.showtimeSeats ==
              Table(Replace(db.showtimeSeats.rows, x.id, x.val.(status := Available)), db.showtimeSeats.nextId)
  {
    var reservation := GetReservationByID(db, reservationId).value;
    var released := db.(reservations := Table(Remove(db.reservations.rows, reservationId), db.reservations.nextId));
    var slot := ShowtimeSeats.GetShowtimeSeatByShowtimeIDSeatID(released, reservation.val.showtimeId, reservation.val.seatId).value;
    var d := CancelReservation(db, reservationId).value;
    var ss :| Row(slot.id, ss) in released.showtimeSeats.rows && ss.status != Available &&
              d == released.(showtimeSeats := Table(Replace(released.showtimeSeats.rows, slot.id, ss.(status := Available)),
                                                   released.showtimeSeats.nextId));
    IncreasingHasUniqueIds(db.showtimeSeats.rows);
    assert slot.val == ss;
    res, x := reservation.val, slot;
  }

  /** In a valid store the conditions CancelReservation checks are enough:
      with the reservation stored and the ShowtimeSeat of its pair present
      and not available, CancelReservation succeeds. */
  lemma CancelSucceedsWhen(db: Db, reservationId: Id, res: Reservation, x: Row<ShowtimeSeat>)
    requires Valid(db) && Row(reservationId, res) in db.reservations.rows
    requires x in db.showtimeSeats.rows && SlotKey(x.val) == TicketKey(res) && x.val.status != Available
    ensures CancelReservation(db, reservationId).Ok?
  {
    IncreasingHasUniqueIds(db.reservations.rows);
    LookupStored(db.reservations.rows, reservationId, res);
    assert GetReservationByID(db, reservationId) == Ok(Row(reservationId, res));
    var released := db.(reservations := Table(Remove(db.reservations.rows, reservationId), db.reservations.nextId));
    RemoveKeeps(db.reservations, reservationId, TicketKey, Unchecked);
    assert Valid(released);
    ShowtimeSeats.GetShowtimeSeatFindsStored(released, x);
    ShowtimeSeats.UpdateShowtimeSeatStatusSpec(released, x.id, Available, x.val);
  }

  /** A successful Reserve keeps every table constraint. */
  lemma ReserveKeepsValid(db: Db, userId: Id, showtimeId: Id, seatId: Id)
    requires Valid(db) && Reserve(db, userId, showtimeId, seatId).Ok?
    ensures Valid(Reserve(db, userId, showtimeId, seatId).value)
  {
    var x := ReserveSucceeded(db, userId, showtimeId, seatId);
    IncreasingHasUniqueIds(db.showtimeSeats.rows);
    ReplaceWellFormed(db.showtimeSeats, x.id, x.val.(status := Locked));
    ReplaceUniqueKeys(db.showtimeSeats.rows, x.id, x.val.(status := Locked), SlotKey);
    var v := Reservation(showtimeId, seatId, userId);
    assert InsertChecked(db.reservations, v, Unchecked, TicketKey).Ok?;
  }

  /** A successful CancelReservation keeps every table constraint. */
  lemma CancelKeepsValid(db: Db, reservationId: Id)
    requires Valid(db) && CancelReservation(db, reservationId).Ok?
    ensures Valid(CancelReservation(db, reservationId).value)
  {
    var res, x := CancelSucceeded(db, reservationId);
    IncreasingHasUniqueIds(db.showtimeSeats.rows);
    ReplaceWellFormed(db.showtimeSeats, x.id, x.val.(status := Available));
    ReplaceUniqueKeys(db.showtimeSeats.rows, x.id, x.val.(status := Available), SlotKey);
    RemoveKeeps(db.reservations, reservationId, TicketKey, Unchecked);
  }
}
