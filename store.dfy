/** The services run against one mutable store. `Store` holds the six
    tables; each method performs the service's steps in the source's order,
    with the source's loops, and is proved to leave the store exactly as the
    pure definition of the operation says. A transaction is a body that may
    stop half-way (`...Tx`) wrapped in a method that restores the snapshot
    taken before it when the body fails. */
module Service {
  import opened Errors
  import opened Tables
  import opened Model
  import Showtimes
  import Seats
  import ShowtimeSeats
  import Halls
  import Movies
  import Reservations
  import Consistency
  import Lifecycle

  /** The store after a transaction: its result when it succeeded, the
      state before it when it failed. */
  function Commit(db: Db, r: Result<Db>): Db {
    if r.Ok? then r.value else db
  }

  /** The rows the seat builder generates, built as the source builds them:
      row by row, each row column by column. */
  method BuildSeatGrid(hallId: Id, rows: int, cols: int) returns (grid: seq<Seat>)
    ensures grid == Seats.SeatGrid(hallId, rows, cols)
  {
    grid := [];
    var row := 0;
    while row < rows
      invariant 0 <= row <= if rows > 0 then rows else 0
      invariant grid == Seats.SeatGrid(hallId, row, cols)
    {
      var col := 0;
      while col < cols
        invariant 0 <= col <= if cols > 0 then cols else 0
        invariant grid == Seats.SeatGrid(hallId, row, cols) + Seats.GridRow(hallId, row, col)
      {
        grid := grid + [Seat(hallId, row, col)];
        col := col + 1;
      }
      assert grid == Seats.SeatGrid(hallId, row + 1, cols);
      row := row + 1;
    }
  }

  /** One available ShowtimeSeat per seat, in the seats' order, built by
      appending as the source does. */
  method BuildShowtimeSeats(showtimeId: Id, seats: seq<Row<Seat>>) returns (built: seq<ShowtimeSeat>)
    ensures built == ShowtimeSeats.NewShowtimeSeats(showtimeId, seats)
  {
    built := [];
    var i := 0;
    while i < |seats|
      invariant 0 <= i <= |seats|
      invariant built == ShowtimeSeats.NewShowtimeSeats(showtimeId, seats[..i])
    {
      built := built + [ShowtimeSeat(showtimeId, seats[i].id, Available)];
      i := i + 1;
    }
    assert seats[..i] == seats;
  }

  /** The scan over a user's reservations that looks for one of the given
      showtime. */
  method ScanForShowtime(reservations: seq<Row<Reservation>>, showtimeId: Id) returns (found: bool)
    ensures found == Reservations.HoldsShowtime(reservations, showtimeId)
  {
    var i := 0;
    while i < |reservations|
      invariant 0 <= i <= |reservations|
      invariant forall k :: 0 <= k < i ==> reservations[k].val.showtimeId != showtimeId
    {
      if reservations[i].val.showtimeId == showtimeId {
        return true;
      }
      i := i + 1;
    }
    return false;
  }

  class Store {
    var movies: Table<Movie>
    var showtimes: Table<Showtime>
    var reservations: Table<Reservation>
    var halls: Table<Hall>
    var seats: Table<Seat>
    var showtimeSeats: Table<ShowtimeSeat>

    /** The current contents of the six tables. */
    function Snapshot(): Db
      reads this
    {
      Db(movies, showtimes, reservations, halls, seats, showtimeSeats)
    }

    /** A new store has empty tables, whose ids start at 1. */
    constructor ()
      ensures Snapshot() == EmptyDb()
      ensures Valid(Snapshot()) && Consistency.Consistent(Snapshot())
    {
      movies, showtimes, reservations := EmptyTable(), EmptyTable(), EmptyTable();
      halls, seats, showtimeSeats := EmptyTable(), EmptyTable(), EmptyTable();
      Consistency.EmptyIsConsistent();
    }

    /** Rollback: every table back to the snapshot. */
    method Restore(db: Db)
      modifies this
      ensures Snapshot() == db
    {
      movies, showtimes, reservations := db.movies, db.showtimes, db.reservations;
      halls, seats, showtimeSeats := db.halls, db.seats, db.showtimeSeats;
    }

    // ---- seats ----

    /** InitSeatsForHallTx: builds the grid with the nested loops, then
        writes it in one batch. */
    method InitSeatsForHall(hall: Row<Hall>) returns (err: Outcome)
      modifies this
      ensures Snapshot() == Commit(old(Snapshot()), Seats.InitSeatsForHall(old(Snapshot()), hall))
      ensures err == Seats.InitSeatsForHall(old(Snapshot()), hall).ToOutcome()
    {
      var grid := BuildSeatGrid(hall.id, hall.val.rows, hall.val.cols);
      var written := InsertBatch(seats, grid, SeatCheck, SeatPlace);
      if written.Err? {
        return Failure(written.error);
      }
      seats := written.value;
      return Success;
    }

    // ---- showtime seats ----

    /** InitShowtimeSeatsForShowtimeTx: one available record per seat of the
        showtime's hall, built by the loop and written in one batch. */
    method InitShowtimeSeatsForShowtime(showtime: Row<Showtime>) returns (err: Outcome)
      modifies this
      ensures Snapshot() == Commit(old(Snapshot()), ShowtimeSeats.InitShowtimeSeatsForShowtime(old(Snapshot()), showtime))
      ensures err == ShowtimeSeats.InitShowtimeSeatsForShowtime(old(Snapshot()), showtime).ToOutcome()
      ensures Valid(old(Snapshot())) && Consistency.Consistent(old(Snapshot())) && showtime in old(showtimes).rows ==>
                Consistency.Consistent(Snapshot())
    {
      var hallSeats := Seats.GetSeatsByHallID(Snapshot(), showtime.val.hallId);
      var built := BuildShowtimeSeats(showtime.id, hallSeats);
      var written := InsertBatch(showtimeSeats, built, Unchecked, SlotKey);
      if written.Err? {
        return Failure(written.error);
      }
      if Valid(old(Snapshot())) && Consistency.Consistent(old(Snapshot())) && showtime in old(showtimes).rows {
        Lifecycle.InitShowtimeSeatsKeepsConsistent(old(Snapshot()), showtime);
      }
      showtimeSeats := written.value;
      return Success;
    }

    /** updateShowtimeSeatStatusTx: reads the record, refuses a transition
        to the status it already has, sets the status and writes the record
        back. Nothing is written when it fails. */
    method UpdateShowtimeSeatStatus(id: Id, target: Status) returns (err: Outcome)
      modifies this
      ensures Snapshot() == Commit(old(Snapshot()), ShowtimeSeats.UpdateShowtimeSeatStatus(old(Snapshot()), id, target))
      ensures err == ShowtimeSeats.UpdateShowtimeSeatStatus(old(Snapshot()), id, target).ToOutcome()
    {
      var existing := Lookup(showtimeSeats.rows, id);
      if existing.None? {
        return Failure(ShowtimeSeatNotExist);
      }
      var record := existing.value;
      if target == record.status {
        return Failure(ShowtimeSeatStatusNotChange);
      }
      record := record.(status := target);
      showtimeSeats := Table(Replace(showtimeSeats.rows, id, record), showtimeSeats.nextId);
      return Success;
    }

    method ToAvailable(id: Id) returns (err: Outcome)
      modifies this
      ensures Snapshot() == Commit(old(Snapshot()), ShowtimeSeats.UpdateShowtimeSeatStatus(old(Snapshot()), id, Available))
      ensures err == ShowtimeSeats.UpdateShowtimeSeatStatus(old(Snapshot()), id, Available).ToOutcome()
    {
      err := UpdateShowtimeSeatStatus(id, Available);
    }

    method ToLocked(id: Id) returns (err: Outcome)
      modifies this
      ensures Snapshot() == Commit(old(Snapshot()), ShowtimeSeats.UpdateShowtimeSeatStatus(old(Snapshot()), id, Locked))
      ensures err == ShowtimeSeats.UpdateShowtimeSeatStatus(old(Snapshot()), id, Locked).ToOutcome()
    {
      err := UpdateShowtimeSeatStatus(id, Locked);
    }

    method ToSold(id: Id) returns (err: Outcome)
      modifies this
      ensures Snapshot() == Commit(old(Snapshot()), ShowtimeSeats.UpdateShowtimeSeatStatus(old(Snapshot()), id, Sold))
      ensures err == ShowtimeSeats.UpdateShowtimeSeatStatus(old(Snapshot()), id, Sold).ToOutcome()
    {
      err := UpdateShowtimeSeatStatus(id, Sold);
    }

    // ---- reservations ----

    /** The body of Reserve's transaction. It may fail after the
        reservation row is written; the caller rolls back. */
    method ReserveTx(userId: Id, showtimeId: Id, seatId: Id) returns (err: Outcome)
      modifies this
      ensures err == Reservations.Reserve(old(Snapshot()), userId, showtimeId, seatId).ToOutcome()
      ensures err.Success? ==> Snapshot() == Reservations.Reserve(old(Snapshot()), userId, showtimeId, seatId).value
    {
      var showtime := Showtimes.GetShowtimeByID(Snapshot(), showtimeId);
      if showtime.Err? {
        return Failure(ShowtimeNotExist);
      }
      var remaining := Reservations.GetRemainingTickets(Snapshot(), showtime.value);
      if remaining.Err? {
        return Failure(remaining.error);
      }
      var held := ScanForShowtime(Reservations.GetReservationsByUserID(Snapshot(), userId), showtimeId);
      if held {
        return Failure(AlreadyReserved);
      }
      var inserted := InsertChecked(reservations, Reservation(showtimeId, seatId, userId), Unchecked, TicketKey);
      if inserted.Err? {
        return Failure(inserted.error);
      }
      reservations := inserted.value;
      var slot := ShowtimeSeats.GetShowtimeSeatByShowtimeIDSeatID(Snapshot(), showtimeId, seatId);
      if slot.Err? {
        return Failure(slot.error);
      }
      err := ToLocked(slot.value.id);
    }

    /** Reserve: the transaction commits on success and rolls back
        otherwise; a consistent store stays consistent. */
    method Reserve(userId: Id, showtimeId: Id, seatId: Id) returns (err: Outcome)
      modifies this
      ensures Snapshot() == Commit(old(Snapshot()), Reservations.Reserve(old(Snapshot()), userId, showtimeId, seatId))
      ensures err == Reservations.Reserve(old(Snapshot()), userId, showtimeId, seatId).ToOutcome()
      ensures Valid(old(Snapshot())) ==> Valid(Snapshot())
      ensures Valid(old(Snapshot())) && Consistency.Consistent(old(Snapshot())) ==> Consistency.Consistent(Snapshot())
    {
      var before := Snapshot();
      err := ReserveTx(userId, showtimeId, seatId);
      if err.Failure? {
        Restore(before);
      } else if Valid(before) {
        Reservations.ReserveKeepsValid(before, userId, showtimeId, seatId);
        if Consistency.Consistent(before) {
          Consistency.ReserveKeepsConsistent(before, userId, showtimeId, seatId);
        }
      }
    }

    /** The body of CancelReservation's transaction. */
    method CancelReservationTx(reservationId: Id) returns (err: Outcome)
      modifies this
      ensures err == Reservations.CancelReservation(old(Snapshot()), reservationId).ToOutcome()
      ensures err.Success? ==> Snapshot() == Reservations.CancelReservation(old(Snapshot()), reservationId).value
    {
      var reservation := Reservations.GetReservationByID(Snapshot(), reservationId);
      if reservation.Err? {
        return Failure(reservation.error);
      }
      reservations := Table(Remove(reservations.rows, reservationId), reservations.nextId);
      var slot := ShowtimeSeats.GetShowtimeSeatByShowtimeIDSeatID(Snapshot(), reservation.value.val.showtimeId,
                                                                  reservation.value.val.seatId);
      if slot.Err? {
        return Failure(slot.error);
      }
      err := ToAvailable(slot.value.id);
    }

    /** CancelReservation: commits on success, rolls back otherwise; a
        consistent store stays consistent. */
    method CancelReservation(reservationId: Id) returns (err: Outcome)
      modifies this
      ensures Snapshot() == Commit(old(Snapshot()), Reservations.CancelReservation(old(Snapshot()), reservationId))
      ensures err == Reservations.CancelReservation(old(Snapshot()), reservationId).ToOutcome()
      ensures Valid(old(Snapshot())) ==> Valid(Snapshot())
      ensures Valid(old(Snapshot())) && Consistency.Consistent(old(Snapshot())) ==> Consistency.Consistent(Snapshot())
    {
      var before := Snapshot();
      err := CancelReservationTx(reservationId);
      if err.Failure? {
        Restore(before);
      } else if Valid(before) {
        Reservations.CancelKeepsValid(before, reservationId);
        if Consistency.Consistent(before) {
          Consistency.CancelKeepsConsistent(before, reservationId);
        }
      }
    }

    // ---- showtimes ----

    /** CreateShowtime: one insert; a consistent store stays consistent. */
    method CreateShowtime(movieId: Id, startAt: Instant, hallId: Id) returns (id: Id)
      modifies this
      ensures Snapshot() == Showtimes.CreateShowtime(old(Snapshot()), movieId, startAt, hallId)
      ensures id == old(showtimes.nextId)
      ensures Valid(old(Snapshot())) ==> Valid(Snapshot())
      ensures Consistency.Consistent(old(Snapshot())) ==> Consistency.Consistent(Snapshot())
    {
      if Consistency.Consistent(Snapshot()) {
        Lifecycle.CreateShowtimeKeepsConsistent(Snapshot(), movieId, startAt, hallId);
      }
      id := showtimes.nextId;
      showtimes := Insert(showtimes, Showtime(movieId, hallId, startAt));
    }

    // ---- halls ----

    /** The body of CreateHall's transaction: the hall row, then its seats. */
    method CreateHallTx(hall: Hall) returns (err: Outcome)
      modifies this
      ensures err == Halls.CreateHall(old(Snapshot()), hall).ToOutcome()
      ensures err.Success? ==> Snapshot() == Halls.CreateHall(old(Snapshot()), hall).value
    {
      var id := halls.nextId;
      var inserted := InsertChecked(halls, hall, HallCheck, HallName);
      if inserted.Err? {
        return Failure(inserted.error);
      }
      halls := inserted.value;
      err := InitSeatsForHall(Row(id, hall));
    }

    /** CreateHall: commits on success; when the seat step fails no hall
        remains. */
    method CreateHall(hall: Hall) returns (err: Outcome)
      modifies this
      ensures Snapshot() == Commit(old(Snapshot()), Halls.CreateHall(old(Snapshot()), hall))
      ensures err == Halls.CreateHall(old(Snapshot()), hall).ToOutcome()
      ensures err.Failure? ==> halls == old(halls) && seats == old(seats)
    {
      var before := Snapshot();
      err := CreateHallTx(hall);
      if err.Failure? {
        Restore(before);
      }
    }

    /** UpdateHall: the showtime guard, the existence check and the name
        check, then the rewrite; nothing changes when a check fails. */
    method UpdateHall(hallId: Id, hall: Hall) returns (err: Outcome)
      modifies this
      ensures Snapshot() == Commit(old(Snapshot()), Halls.UpdateHall(old(Snapshot()), hallId, hall))
      ensures err == Halls.UpdateHall(old(Snapshot()), hallId, hall).ToOutcome()
      ensures Valid(old(Snapshot())) && Consistency.Consistent(old(Snapshot())) ==> Consistency.Consistent(Snapshot())
    {
      var db := Snapshot();
      if Showtimes.GetShowtimesByHallID(db, hallId) != [] {
        return Failure(RelatedResourceExists);
      }
      var existing := Halls.GetHallByID(db, hallId);
      if existing.Err? {
        return Failure(existing.error);
      }
      if existing.value.val.name != hall.name {
        var another := Halls.GetHallByName(db, hall.name);
        if another.Ok? && another.value.id != hallId {
          return Failure(AlreadyExists);
        }
      }
      var updated := UpdateChecked(halls, hallId, hall, HallCheck, HallName);
      if updated.Err? {
        return Failure(updated.error);
      }
      if Valid(db) && Consistency.Consistent(db) {
        Lifecycle.UpdateHallKeepsConsistent(db, hallId, hall);
      }
      halls := updated.value;
      return Success;
    }

    /** DeleteHallByID: the showtime guard, then the delete with its
        cascade to seats and their ShowtimeSeats. */
    method DeleteHallByID(hallId: Id) returns (err: Outcome)
      modifies this
      ensures Snapshot() == Commit(old(Snapshot()), Halls.DeleteHallByID(old(Snapshot()), hallId))
      ensures err == Halls.DeleteHallByID(old(Snapshot()), hallId).ToOutcome()
      ensures Valid(old(Snapshot())) ==> Valid(Snapshot())
      ensures Valid(old(Snapshot())) && Consistency.Consistent(old(Snapshot())) ==> Consistency.Consistent(Snapshot())
    {
      var db := Snapshot();
      if Showtimes.GetShowtimesByHallID(db, hallId) != [] {
        return Failure(RelatedResourceExists);
      }
      if Valid(db) {
        Halls.DeleteHallCascadeKeepsValid(db, hallId);
        if Consistency.Consistent(db) {
          Lifecycle.DeleteHallKeepsConsistent(db, hallId);
        }
      }
      var removedSeats := Halls.HallSeatIds(db, hallId);
      halls := Table(Where(halls.rows, Halls.KeepHall(hallId)), halls.nextId);
      seats := Table(Where(seats.rows, Halls.KeepSeat(hallId)), seats.nextId);
      showtimeSeats := Table(Where(showtimeSeats.rows, Halls.KeepShowtimeSeat(removedSeats)), showtimeSeats.nextId);
      return Success;
    }

    // ---- movies ----

    /** CreateMovie: one insert under the unique index on titles. */
    method CreateMovie(movie: Movie) returns (err: Outcome)
      modifies this
      ensures Snapshot() == Commit(old(Snapshot()), Movies.CreateMovie(old(Snapshot()), movie))
      ensures err == Movies.CreateMovie(old(Snapshot()), movie).ToOutcome()
      ensures Valid(old(Snapshot())) ==> Valid(Snapshot())
      ensures Consistency.Consistent(old(Snapshot())) ==> Consistency.Consistent(Snapshot())
    {
      if Consistency.Consistent(Snapshot()) {
        Lifecycle.MovieOperationsKeepConsistent(Snapshot(), 0, movie);
      }
      var inserted := InsertChecked(movies, movie, Unchecked, MovieTitle);
      if inserted.Err? {
        return Failure(inserted.error);
      }
      movies := inserted.value;
      return Success;
    }

    /** UpdateMovie: the existence check, the showtime guard and the title
        check, then the rewrite; nothing changes when a check fails. */
    method UpdateMovie(movieId: Id, movie: Movie) returns (err: Outcome)
      modifies this
      ensures Snapshot() == Commit(old(Snapshot()), Movies.UpdateMovie(old(Snapshot()), movieId, movie))
      ensures err == Movies.UpdateMovie(old(Snapshot()), movieId, movie).ToOutcome()
      ensures Consistency.Consistent(old(Snapshot())) ==> Consistency.Consistent(Snapshot())
    {
      var db := Snapshot();
      if Consistency.Consistent(db) {
        Lifecycle.MovieOperationsKeepConsistent(db, movieId, movie);
      }
      var existing := Movies.GetMovieByID(db, movieId);
      if existing.Err? {
        return Failure(existing.error);
      }
      if Showtimes.GetShowtimesByMovieID(db, movieId) != [] {
        return Failure(RelatedResourceExists);
      }
      if existing.value.val.title != movie.title {
        var another := Movies.GetMovieByTitle(db, movie.title);
        if another.Ok? && another.value.id != movieId {
          return Failure(AlreadyExists);
        }
      }
      var updated := UpdateChecked(movies, movieId, movie, Unchecked, MovieTitle);
      if updated.Err? {
        return Failure(updated.error);
      }
      movies := updated.value;
      return Success;
    }

    /** DeleteMovieByID: the showtime guard, then the delete. */
    method DeleteMovieByID(movieId: Id) returns (err: Outcome)
      modifies this
      ensures Snapshot() == Commit(old(Snapshot()), Movies.DeleteMovieByID(old(Snapshot()), movieId))
      ensures err == Movies.DeleteMovieByID(old(Snapshot()), movieId).ToOutcome()
      ensures Valid(old(Snapshot())) ==> Valid(Snapshot())
      ensures Consistency.Consistent(old(Snapshot())) ==> Consistency.Consistent(Snapshot())
    {
      var db := Snapshot();
      if Consistency.Consistent(db) {
        Lifecycle.MovieOperationsKeepConsistent(db, movieId, Movie([], []));
      }
      if Showtimes.GetShowtimesByMovieID(db, movieId) != [] {
        return Failure(RelatedResourceExists);
      }
      movies := Table(Remove(movies.rows, movieId), movies.nextId);
      return Success;
    }
  }
}
