/** The records of the reservation system and the constraints the schema
    declares on them: unique indexes and check constraints. A record's
    primary key is the id of the row that holds it. Users are not modelled;
    a reservation keeps its user's id. */
module Model {
  import opened Tables

  /** The status of one seat for one showtime; a datatype, so every
      ShowtimeSeat has exactly one of the three. */
  datatype Status = Available | Locked | Sold

  /** A showtime's start, kept as an opaque instant. */
  datatype Instant = Instant(unixNanos: int)

  datatype Movie = Movie(title: string, description: string)

  datatype Hall = Hall(name: string, seatCount: int, rows: int, cols: int)

  datatype Seat = Seat(hallId: Id, row: int, col: int)

  datatype Showtime = Showtime(movieId: Id, hallId: Id, startAt: Instant)

  datatype ShowtimeSeat = ShowtimeSeat(showtimeId: Id, seatId: Id, status: Status)

  datatype Reservation = Reservation(showtimeId: Id, seatId: Id, userId: Id)

  // The unique indexes.

  function MovieTitle(m: Movie): string { m.title }

  function HallName(h: Hall): string { h.name }

  /** idx_hall_row_col */
  function SeatPlace(s: Seat): (Id, int, int) { (s.hallId, s.row, s.col) }

  /** idx_showtime_seat */
  function SlotKey(ss: ShowtimeSeat): (Id, Id) { (ss.showtimeId, ss.seatId) }

  /** idx_unique_ticket */
  function TicketKey(r: Reservation): (Id, Id) { (r.showtimeId, r.seatId) }

  // The check constraints.

  predicate HallCheck(h: Hall) { h.rows > 0 && h.cols > 0 }

  predicate SeatCheck(s: Seat) { s.row > 0 && s.col > 0 }

  /** The whole store: one table per record type. */
  datatype Db = Db(
    movies: Table<Movie>,
    showtimes: Table<Showtime>,
    reservations: Table<Reservation>,
    halls: Table<Hall>,
    seats: Table<Seat>,
    showtimeSeats: Table<ShowtimeSeat>)

  function EmptyDb(): Db {
    Db(EmptyTable(), EmptyTable(), EmptyTable(), EmptyTable(), EmptyTable(), EmptyTable())
  }

  /** What the database itself guarantees of every state: primary keys,
      unique indexes and check constraints. */
  ghost predicate Valid(db: Db) {
    && WellFormed(db.movies) && UniqueKeys(db.movies.rows, MovieTitle)
    && WellFormed(db.showtimes)
    && WellFormed(db.reservations) && UniqueKeys(db.reservations.rows, TicketKey)
    && WellFormed(db.halls) && UniqueKeys(db.halls.rows, HallName)
    && AllSatisfy(db.halls.rows, HallCheck)
    && WellFormed(db.seats) && UniqueKeys(db.seats.rows, SeatPlace)
    && AllSatisfy(db.seats.rows, SeatCheck)
    && WellFormed(db.showtimeSeats) && UniqueKeys(db.showtimeSeats.rows, SlotKey)
  }
}
