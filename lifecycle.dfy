/** The administrative operations against the reservation invariant:
    creating showtimes and seeding their seats, creating, updating and
    deleting halls and movies. Also the consequence of a showtime created
    without its ShowtimeSeats, and the corrected creation that seeds them. */
module Lifecycle {
  import opened Errors
  import opened Tables
  import opened Model
  import Showtimes
  import Seats
  import ShowtimeSeats
  import Halls
  import Movies
  import Reservations
  import opened Consistency

  // ----- Showtimes -----

  /** Adding a showtime keeps the invariant: the new showtime has no
      ShowtimeSeats and no reservations, and every anchor survives. */
  lemma CreateShowtimeKeepsConsistent(db: Db, movieId: Id, startAt: Instant, hallId: Id)
    requires Consistent(db)
    ensures Consistent(Showtimes.CreateShowtime(db, movieId, startAt, hallId))
  {
    var d := Showtimes.CreateShowtime(db, movieId, startAt, hallId);
    forall y | y in d.showtimeSeats.rows ensures Anchored(d, y.val) {
      var st, s :| st in db.showtimes.rows && s in db.seats.rows &&
                   st.id == y.val.showtimeId && s.id == y.val.seatId && s.val.hallId == st.val.hallId;
      assert st in d.showtimes.rows;
    }
  }

  /** Every ShowtimeSeat belongs to a stored showtime, so none belongs to
      the id the next showtime will get. */
  lemma NoSeatsForNextShowtime(db: Db)
    requires Valid(db) && ShowtimeSeatsAnchored(db)
    ensures forall x :: x in db.showtimeSeats.rows ==> x.val.showtimeId != db.showtimes.nextId
  {
    forall x | x in db.showtimeSeats.rows ensures x.val.showtimeId != db.showtimes.nextId {
      assert Anchored(db, x.val);
      var st, s :| st in db.showtimes.rows && s in db.seats.rows &&
                   st.id == x.val.showtimeId && s.id == x.val.seatId && s.val.hallId == st.val.hallId;
    }
  }

  /** A reservation needs a ShowtimeSeat, so none is held for the id the
      next showtime will get. */
  lemma NoReservationsForNextShowtime(db: Db)
    requires Valid(db) && ReservationsHaveShowtimeSeats(db) && ShowtimeSeatsAnchored(db)
    ensures forall r :: r in db.reservations.rows ==> r.val.showtimeId != db.showtimes.nextId
  {
    NoSeatsForNextShowtime(db);
    forall r | r in db.reservations.rows ensures r.val.showtimeId != db.showtimes.nextId {
      var z :| z in db.showtimeSeats.rows && SlotKey(z.val) == TicketKey(r.val);
    }
  }

  /** A ShowtimeSeat the initializer adds for the showtime: available, for
      a seat of the showtime's hall, and for a pair that had no record. */
  ghost predicate Seeded(db: Db, showtime: Row<Showtime>, ss: ShowtimeSeat) {
    && ss.status == Available && ss.showtimeId == showtime.id
    && (exists s :: s in db.seats.rows && s.id == ss.seatId && s.val.hallId == showtime.val.hallId)
    && (forall x :: x in db.showtimeSeats.rows ==> SlotKey(x.val) != SlotKey(ss))
  }

  /** The store after seeding: only ShowtimeSeats were added. */
  ghost predicate SeededStore(db: Db, d: Db, showtime: Row<Showtime>) {
    && d == db.(showtimeSeats := d.showtimeSeats)
    && (forall y :: y in db.showtimeSeats.rows ==> y in d.showtimeSeats.rows)
    && (forall y :: y in d.showtimeSeats.rows && y !in db.showtimeSeats.rows ==> Seeded(db, showtime, y.val))
  }

  /** A successful initializer produces such a store. */
  lemma InitShowtimeSeatsSeeds(db: Db, showtime: Row<Showtime>)
    requires Valid(db) && ShowtimeSeats.InitShowtimeSeatsForShowtime(db, showtime).Ok?
    ensures SeededStore(db, ShowtimeSeats.InitShowtimeSeatsForShowtime(db, showtime).value, showtime)
  {
    var d := ShowtimeSeats.InitShowtimeSeatsForShowtime(db, showtime).value;
    var seats := Seats.GetSeatsByHallID(db, showtime.val.hallId);
    var added := Numbered(db.showtimeSeats.nextId, ShowtimeSeats.NewShowtimeSeats(showtime.id, seats));
    NumberedAt(db.showtimeSeats.nextId, ShowtimeSeats.NewShowtimeSeats(showtime.id, seats));
    ShowtimeSeats.InitShowtimeSeatsOutcome(db, showtime);
    assert d.showtimeSeats.rows == db.showtimeSeats.rows + added;
    forall y | y in d.showtimeSeats.rows && y !in db.showtimeSeats.rows ensures Seeded(db, showtime, y.val) {
      var i :| 0 <= i < |added| && added[i] == y;
      assert seats[i] in seats;
    }
  }

  lemma SeedingKeepsLockedExactlyWhenReserved(db: Db, d: Db, showtime: Row<Showtime>)
    requires LockedExactlyWhenReserved(db) && ReservationsHaveShowtimeSeats(db) && SeededStore(db, d, showtime)
    ensures LockedExactlyWhenReserved(d)
  {
    forall y | y in d.showtimeSeats.rows ensures (y.val.status == Locked <==> Reserved(d, SlotKey(y.val))) {
      if y !in db.showtimeSeats.rows {
        assert Seeded(db, showtime, y.val);
        assert !Reserved(db, SlotKey(y.val));
      }
    }
  }

  lemma SeedingKeepsAnchored(db: Db, d: Db, showtime: Row<Showtime>)
    requires ShowtimeSeatsAnchored(db) && showtime in db.showtimes.rows && SeededStore(db, d, showtime)
    ensures ShowtimeSeatsAnchored(d)
  {
    forall y | y in d.showtimeSeats.rows ensures Anchored(d, y.val) {
      if y !in db.showtimeSeats.rows {
        assert Seeded(db, showtime, y.val);
        var s :| s in db.seats.rows && s.id == y.val.seatId && s.val.hallId == showtime.val.hallId;
        assert Anchored(d, y.val);
      } else {
        assert Anchored(db, y.val);
      }
    }
  }

  lemma SeedingKeepsReservationSeats(db: Db, d: Db, showtime: Row<Showtime>)
    requires ReservationsHaveShowtimeSeats(db) && SeededStore(db, d, showtime)
    ensures ReservationsHaveShowtimeSeats(d)
  {
    forall r | r in d.reservations.rows
      ensures exists z :: z in d.showtimeSeats.rows && SlotKey(z.val) == TicketKey(r.val)
    {
      var z :| z in db.showtimeSeats.rows && SlotKey(z.val) == TicketKey(r.val);
      assert z in d.showtimeSeats.rows;
    }
  }

  /** Seeding the ShowtimeSeats of a stored showtime keeps the invariant:
      the new records are available and no reservation holds their pairs,
      since a held pair already has a record and the batch was accepted. */
  lemma InitShowtimeSeatsKeepsConsistent(db: Db, showtime: Row<Showtime>)
    requires Valid(db) && Consistent(db) && showtime in db.showtimes.rows
    requires ShowtimeSeats.InitShowtimeSeatsForShowtime(db, showtime).Ok?
    ensures Consistent(ShowtimeSeats.InitShowtimeSeatsForShowtime(db, showtime).value)
  {
    var d := ShowtimeSeats.InitShowtimeSeatsForShowtime(db, showtime).value;
    InitShowtimeSeatsSeeds(db, showtime);
    SeedingKeepsLockedExactlyWhenReserved(db, d, showtime);
    SeedingKeepsAnchored(db, d, showtime);
    SeedingKeepsReservationSeats(db, d, showtime);
  }

  // ----- A showtime without ShowtimeSeats -----

  /** As written, CreateShowtime creates no ShowtimeSeats, and nothing else
      on the service's path creates them for the new showtime: in a
      consistent store no seat of it can be reserved. Reserve finds the
      showtime, then fails at the capacity check, or, when the hall has
      seats to sell, at the ShowtimeSeat lookup. */
  lemma ReserveFailsOnFreshShowtime(db: Db, movieId: Id, startAt: Instant, hallId: Id, userId: Id, seatId: Id)
    requires Valid(db) && Consistent(db)
    ensures Reservations.Reserve(Showtimes.CreateShowtime(db, movieId, startAt, hallId),
                                 userId, db.showtimes.nextId, seatId).Err?
  {
    var d := Showtimes.CreateShowtime(db, movieId, startAt, hallId);
    NoSeatsForNextShowtime(db);
    Reservations.ReserveOutcome(d, userId, db.showtimes.nextId, seatId);
  }

  /** No reservation is held for the showtime just created. */
  lemma FreshShowtimeHasNoReservations(db: Db, d: Db, showtimeId: Id)
    requires Valid(db) && ReservationsHaveShowtimeSeats(db) && ShowtimeSeatsAnchored(db)
    requires d.reservations == db.reservations && showtimeId == db.showtimes.nextId
    ensures Reservations.ReservationCount(d, showtimeId) == 0
    ensures forall r :: r in d.reservations.rows ==> r.val.showtimeId != showtimeId
  {
    NoReservationsForNextShowtime(db);
    assert (set x | x in d.reservations.rows && x.val.showtimeId == showtimeId) == {};
  }

  /** When the showtime's hall exists and has seats to sell, the failure
      is the store's not-found error for the missing ShowtimeSeat. */
  lemma ReserveOnFreshShowtimeNotFound(db: Db, movieId: Id, startAt: Instant, hallId: Id, hall: Hall,
                                       userId: Id, seatId: Id)
    requires Valid(db) && ReservationsHaveShowtimeSeats(db) && ShowtimeSeatsAnchored(db)
    requires Row(hallId, hall) in db.halls.rows && hall.seatCount > 0
    ensures Reservations.Reserve(Showtimes.CreateShowtime(db, movieId, startAt, hallId),
                                 userId, db.showtimes.nextId, seatId) == Err(RecordNotFound)
  {
    var d := Showtimes.CreateShowtime(db, movieId, startAt, hallId);
    var n := db.showtimes.nextId;
    var st := Row(n, Showtime(movieId, hallId, startAt));
    IncreasingHasUniqueIds(d.showtimes.rows);
    LookupStored(d.showtimes.rows, n, st.val);
    assert Showtimes.GetShowtimeByID(d, n) == Ok(st);
    FreshShowtimeHasNoReservations(db, d, n);
    Reservations.RemainingTicketsCount(d, st, hall);
    assert Reservations.GetRemainingTickets(d, st).Ok?;
    assert !Reservations.HoldsShowtime(Reservations.GetReservationsByUserID(d, userId), n);
    var inserted := InsertChecked(d.reservations, Reservation(n, seatId, userId), Unchecked, TicketKey);
    assert inserted.Ok?;
    var booked := d.(reservations := inserted.value);
    NoSeatsForNextShowtime(db);
    assert ShowtimeSeats.GetShowtimeSeatByShowtimeIDSeatID(booked, n, seatId) == Err(RecordNotFound);
  }

  /** CreateShowtime followed by the ShowtimeSeat initializer in the same
      transaction, as the reservation path needs. */
  function CreateShowtimeWithSeats(db: Db, movieId: Id, startAt: Instant, hallId: Id): (r: Result<Db>)
    ensures r.Ok? ==> r.value.showtimes == Insert(db.showtimes, Showtime(movieId, hallId, startAt))
    ensures r.Ok? ==> r.value.(showtimes := db.showtimes, showtimeSeats := db.showtimeSeats) == db
  {
    var d := Showtimes.CreateShowtime(db, movieId, startAt, hallId);
    ShowtimeSeats.InitShowtimeSeatsForShowtime(d, Row(db.showtimes.nextId, Showtime(movieId, hallId, startAt)))
  }

  /** In a consistent store the corrected creation always succeeds, and
      keeps the constraints and the invariant. */
  lemma CreateShowtimeWithSeatsSucceeds(db: Db, movieId: Id, startAt: Instant, hallId: Id)
    requires Valid(db) && Consistent(db)
    ensures CreateShowtimeWithSeats(db, movieId, startAt, hallId).Ok?
    ensures Valid(CreateShowtimeWithSeats(db, movieId, startAt, hallId).value)
    ensures Consistent(CreateShowtimeWithSeats(db, movieId, startAt, hallId).value)
  {
    var d := Showtimes.CreateShowtime(db, movieId, startAt, hallId);
    var st := Row(db.showtimes.nextId, Showtime(movieId, hallId, startAt));
    NoSeatsForNextShowtime(db);
    CreateShowtimeKeepsConsistent(db, movieId, startAt, hallId);
    ShowtimeSeats.InitShowtimeSeatsOutcome(d, st);
    assert st in d.showtimes.rows;
    InitShowtimeSeatsKeepsConsistent(d, st);
  }

  /** The corrected creation seeds an available ShowtimeSeat for every seat
      of the hall. */
  lemma CreateShowtimeWithSeatsSeeds(db: Db, movieId: Id, startAt: Instant, hallId: Id, seat: Row<Seat>)
    returns (slot: Row<ShowtimeSeat>)
    requires CreateShowtimeWithSeats(db, movieId, startAt, hallId).Ok?
    requires seat in db.seats.rows && seat.val.hallId == hallId
    ensures slot in CreateShowtimeWithSeats(db, movieId, startAt, hallId).value.showtimeSeats.rows
    ensures slot.val == ShowtimeSeat(db.showtimes.nextId, seat.id, Available)
  {
    var d := Showtimes.CreateShowtime(db, movieId, startAt, hallId);
    var seats := Seats.GetSeatsByHallID(d, hallId);
    var i :| 0 <= i < |seats| && seats[i] == seat;
    var added := Numbered(d.showtimeSeats.nextId, ShowtimeSeats.NewShowtimeSeats(db.showtimes.nextId, seats));
    NumberedAt(d.showtimeSeats.nextId, ShowtimeSeats.NewShowtimeSeats(db.showtimes.nextId, seats));
    slot := added[i];
    assert slot in added;
  }

  /** With the seats seeded, a new showtime in a hall with seats to sell can
      be booked on any seat of that hall. */
  lemma ReserveAfterCreateShowtimeWithSeats(db: Db, movieId: Id, startAt: Instant, hallId: Id, hall: Hall,
                                            seat: Row<Seat>, userId: Id)
    requires Valid(db) && Consistent(db)
    requires Row(hallId, hall) in db.halls.rows && hall.seatCount > 0
    requires seat in db.seats.rows && seat.val.hallId == hallId
    ensures CreateShowtimeWithSeats(db, movieId, startAt, hallId).Ok?
    ensures Reservations.Reserve(CreateShowtimeWithSeats(db, movieId, startAt, hallId).value,
                                 userId, db.showtimes.nextId, seat.id).Ok?
  {
    CreateShowtimeWithSeatsSucceeds(db, movieId, startAt, hallId);
    var e := CreateShowtimeWithSeats(db, movieId, startAt, hallId).value;
    var n := db.showtimes.nextId;
    var st := Row(n, Showtime(movieId, hallId, startAt));
    assert st in e.showtimes.rows;
    FreshShowtimeHasNoReservations(db, e, n);
    assert Row(hallId, hall) in e.halls.rows;
    Reservations.RemainingTicketsCount(e, st, hall);
    var slot := CreateShowtimeWithSeatsSeeds(db, movieId, startAt, hallId, seat);
    Reservations.ReserveSucceedsWhen(e, userId, seat.id, st, slot);
  }

  // ----- Halls -----

  /** Updating a hall rewrites one hall record under its own id, so every
      seat keeps its hall. */
  lemma UpdateHallKeepsConsistent(db: Db, hallId: Id, hall: Hall)
    requires Valid(db) && Consistent(db) && Halls.UpdateHall(db, hallId, hall).Ok?
    ensures Consistent(Halls.UpdateHall(db, hallId, hall).value)
  {
    var d := Halls.UpdateHall(db, hallId, hall).value;
    IncreasingHasUniqueIds(db.halls.rows);
    forall s | s in d.seats.rows ensures exists h :: h in d.halls.rows && h.id == s.val.hallId {
      var h :| h in db.halls.rows && h.id == s.val.hallId;
      ReplaceMembers(db.halls.rows, hallId, hall, h);
      if h.id == hallId {
        ReplaceMembers(db.halls.rows, hallId, hall, Row(hallId, hall));
      }
    }
  }

  /** When no showtime uses the hall, no ShowtimeSeat lies in it: each one
      is anchored to a showtime in its seat's hall. */
  lemma NoShowtimeSeatsInUnusedHall(db: Db, hallId: Id)
    requires Valid(db) && ShowtimeSeatsAnchored(db)
    requires forall x :: x in db.showtimes.rows ==> x.val.hallId != hallId
    ensures forall x, s :: x in db.showtimeSeats.rows && s in db.seats.rows && s.id == x.val.seatId ==>
              s.val.hallId != hallId
  {
    IncreasingHasUniqueIds(db.seats.rows);
    forall x, s | x in db.showtimeSeats.rows && s in db.seats.rows && s.id == x.val.seatId
      ensures s.val.hallId != hallId
    {
      assert Anchored(db, x.val);
      var st, s' :| st in db.showtimes.rows && s' in db.seats.rows &&
                    st.id == x.val.showtimeId && s'.id == x.val.seatId && s'.val.hallId == st.val.hallId;
      assert s' == s;
    }
  }

  /** The store after a hall's cascade, when no showtime uses the hall and
      so no ShowtimeSeat lies in it: the hall and its seats are gone. */
  ghost predicate HallRemoved(db: Db, d: Db, hallId: Id) {
    && d == db.(halls := d.halls, seats := d.seats)
    && (forall x :: x in db.showtimes.rows ==> x.val.hallId != hallId)
    && (forall h :: h in d.halls.rows <==> h in db.halls.rows && h.id != hallId)
    && (forall s :: s in d.seats.rows <==> s in db.seats.rows && s.val.hallId != hallId)
  }

  lemma HallRemovedKeepsSeatsInHalls(db: Db, d: Db, hallId: Id)
    requires SeatsInHalls(db) && HallRemoved(db, d, hallId)
    ensures SeatsInHalls(d)
  {
    forall s | s in d.seats.rows ensures exists h :: h in d.halls.rows && h.id == s.val.hallId {
      var h :| h in db.halls.rows && h.id == s.val.hallId;
      assert h in d.halls.rows;
    }
  }

  lemma HallRemovedKeepsAnchored(db: Db, d: Db, hallId: Id)
    requires ShowtimeSeatsAnchored(db) && HallRemoved(db, d, hallId)
    ensures ShowtimeSeatsAnchored(d)
  {
    forall y | y in d.showtimeSeats.rows ensures Anchored(d, y.val) {
      assert Anchored(db, y.val);
      var st, s :| st in db.showtimes.rows && s in db.seats.rows &&
                   st.id == y.val.showtimeId && s.id == y.val.seatId && s.val.hallId == st.val.hallId;
      assert s in d.seats.rows;
    }
  }

  lemma HallRemovedKeepsConsistent(db: Db, d: Db, hallId: Id)
    requires Consistent(db) && HallRemoved(db, d, hallId)
    ensures Consistent(d)
  {
    HallRemovedKeepsSeatsInHalls(db, d, hallId);
    HallRemovedKeepsAnchored(db, d, hallId);
  }

  /** When no showtime uses the hall, the cascade removes the hall and its
      seats and no ShowtimeSeat. */
  lemma DeleteHallRemoves(db: Db, hallId: Id)
    requires Valid(db) && ShowtimeSeatsAnchored(db) && Halls.DeleteHallByID(db, hallId).Ok?
    ensures Halls.DeleteHallByID(db, hallId).value.showtimeSeats == db.showtimeSeats
    ensures HallRemoved(db, Halls.DeleteHallByID(db, hallId).value, hallId)
  {
    NoShowtimeSeatsInUnusedHall(db, hallId);
    WhereAll(db.showtimeSeats.rows, Halls.KeepShowtimeSeat(Halls.HallSeatIds(db, hallId)));
  }

  /** Deleting a hall that no showtime uses keeps the invariant; its
      cascade then removes no ShowtimeSeat, so no reservation loses its
      ShowtimeSeat. */
  lemma DeleteHallKeepsConsistent(db: Db, hallId: Id)
    requires Valid(db) && Consistent(db) && Halls.DeleteHallByID(db, hallId).Ok?
    ensures Halls.DeleteHallByID(db, hallId).value.showtimeSeats == db.showtimeSeats
    ensures Consistent(Halls.DeleteHallByID(db, hallId).value)
  {
    DeleteHallRemoves(db, hallId);
    HallRemovedKeepsConsistent(db, Halls.DeleteHallByID(db, hallId).value, hallId);
  }

  /** The reservations' foreign key to their seat has no ON DELETE action,
      so the database would refuse a hall delete whose cascade removes a
      reserved seat. In a consistent store that never happens: a delete
      that passes the showtime guard removes no seat any reservation
      refers to. */
  lemma DeleteHallSparesReservedSeats(db: Db, hallId: Id)
    requires Valid(db) && Consistent(db) && Halls.DeleteHallByID(db, hallId).Ok?
    ensures forall r, s :: r in db.reservations.rows && s in db.seats.rows && s.id == r.val.seatId ==>
              s.val.hallId != hallId
    ensures forall r, s :: r in db.reservations.rows && s in db.seats.rows && s.id == r.val.seatId ==>
              s in Halls.DeleteHallByID(db, hallId).value.seats.rows
  {
    NoShowtimeSeatsInUnusedHall(db, hallId);
    DeleteHallRemoves(db, hallId);
    forall r, s | r in db.reservations.rows && s in db.seats.rows && s.id == r.val.seatId
      ensures s.val.hallId != hallId
    {
      var z :| z in db.showtimeSeats.rows && SlotKey(z.val) == TicketKey(r.val);
      assert s.id == z.val.seatId;
    }
  }

  /** The store after a hall is added with seats of its own. */
  ghost predicate HallAdded(db: Db, d: Db, hall: Row<Hall>) {
    && d == db.(halls := d.halls, seats := d.seats)
    && hall in d.halls.rows
    && (forall h :: h in db.halls.rows ==> h in d.halls.rows)
    && (forall s :: s in db.seats.rows ==> s in d.seats.rows)
    && (forall s :: s in d.seats.rows && s !in db.seats.rows ==> s.val.hallId == hall.id)
  }

  lemma HallAddedKeepsSeatsInHalls(db: Db, d: Db, hall: Row<Hall>)
    requires SeatsInHalls(db) && HallAdded(db, d, hall)
    ensures SeatsInHalls(d)
  {
    forall s | s in d.seats.rows ensures exists h :: h in d.halls.rows && h.id == s.val.hallId {
      if s in db.seats.rows {
        var h :| h in db.halls.rows && h.id == s.val.hallId;
        assert h in d.halls.rows;
      }
    }
  }

  lemma HallAddedKeepsAnchored(db: Db, d: Db, hall: Row<Hall>)
    requires ShowtimeSeatsAnchored(db) && HallAdded(db, d, hall)
    ensures ShowtimeSeatsAnchored(d)
  {
    forall y | y in d.showtimeSeats.rows ensures Anchored(d, y.val) {
      assert Anchored(db, y.val);
      var st, s :| st in db.showtimes.rows && s in db.seats.rows &&
                   st.id == y.val.showtimeId && s.id == y.val.seatId && s.val.hallId == st.val.hallId;
      assert s in d.seats.rows;
    }
  }

  lemma HallAddedKeepsConsistent(db: Db, d: Db, hall: Row<Hall>)
    requires Consistent(db) && HallAdded(db, d, hall)
    ensures Consistent(d)
  {
    HallAddedKeepsSeatsInHalls(db, d, hall);
    HallAddedKeepsAnchored(db, d, hall);
  }

  /** Every seat lies in a stored hall, so none lies in the hall the next
      insert creates. */
  lemma NoSeatsInNextHall(db: Db)
    requires Valid(db) && SeatsInHalls(db)
    ensures forall s :: s in db.seats.rows ==> s.val.hallId != db.halls.nextId
  {
    forall s | s in db.seats.rows ensures s.val.hallId != db.halls.nextId {
      var h :| h in db.halls.rows && h.id == s.val.hallId;
    }
  }

  /** The corrected creation adds the hall and seats of that hall only. */
  lemma CreateHallFromOneAdds(db: Db, hall: Hall)
    requires Valid(db) && SeatsInHalls(db)
    requires HallCheck(hall) && KeyFree(db.halls.rows, HallName, hall.name)
    ensures Halls.CreateHallFromOne(db, hall).Ok?
    ensures HallAdded(db, Halls.CreateHallFromOne(db, hall).value, Row(db.halls.nextId, hall))
  {
    NoSeatsInNextHall(db);
    Halls.CreateHallFromOneSucceeds(db, hall);
    GridFromOneInHall(db.seats.nextId, db.halls.nextId, hall.rows, hall.cols);
  }

  lemma GridFromOneInHall(start: Id, hallId: Id, rows: int, cols: int)
    ensures forall s :: s in Numbered(start, Seats.SeatGridFromOne(hallId, rows, cols)) ==> s.val.hallId == hallId
  {
    var grid := Seats.SeatGridFromOne(hallId, rows, cols);
    var added := Numbered(start, grid);
    NumberedAt(start, grid);
    forall s | s in added ensures s.val.hallId == hallId {
      var i :| 0 <= i < |added| && added[i] == s;
      assert grid[i].hallId == hallId;
    }
  }

  /** Creating a hall, with the grid numbered from 1, in a consistent store
      succeeds when the hall passes its check and its name is free, and
      keeps the constraints and the invariant: the new seats belong to the
      new hall. */
  lemma CreateHallFromOneKeepsConsistent(db: Db, hall: Hall)
    requires Valid(db) && Consistent(db)
    requires HallCheck(hall) && KeyFree(db.halls.rows, HallName, hall.name)
    ensures Halls.CreateHallFromOne(db, hall).Ok?
    ensures Valid(Halls.CreateHallFromOne(db, hall).value)
    ensures Consistent(Halls.CreateHallFromOne(db, hall).value)
  {
    NoSeatsInNextHall(db);
    Halls.CreateHallFromOneSucceeds(db, hall);
    CreateHallFromOneAdds(db, hall);
    HallAddedKeepsConsistent(db, Halls.CreateHallFromOne(db, hall).value, Row(db.halls.nextId, hall));
  }

  // ----- Movies -----

  /** The invariant does not mention movies, and the movie operations
      change only the movie table. */
  lemma MovieOperationsKeepConsistent(db: Db, movieId: Id, movie: Movie)
    requires Consistent(db)
    ensures Movies.CreateMovie(db, movie).Ok? ==> Consistent(Movies.CreateMovie(db, movie).value)
    ensures Movies.UpdateMovie(db, movieId, movie).Ok? ==> Consistent(Movies.UpdateMovie(db, movieId, movie).value)
    ensures Movies.DeleteMovieByID(db, movieId).Ok? ==> Consistent(Movies.DeleteMovieByID(db, movieId).value)
  {
    if Movies.CreateMovie(db, movie).Ok? {
      MoviesOnlyChange(db, Movies.CreateMovie(db, movie).value);
    }
    if Movies.UpdateMovie(db, movieId, movie).Ok? {
      MoviesOnlyChange(db, Movies.UpdateMovie(db, movieId, movie).value);
    }
    if Movies.DeleteMovieByID(db, movieId).Ok? {
      MoviesOnlyChange(db, Movies.DeleteMovieByID(db, movieId).value);
    }
  }

  lemma MoviesOnlyChange(db: Db, d: Db)
    requires Consistent(db) && d.(movies := db.movies) == db
    ensures Consistent(d)
  {
    assert d == db.(movies := d.movies);
  }
}
