/** The showtime service: creating a showtime and the showtime lookups the
    structural guards and the reservation path rely on. The `Tx` and plain
    variants of each lookup read the same store here and are one function. */
module Showtimes {
  import opened Errors
  import opened Tables
  import opened Model

  /** Inserts one showtime. Neither the movie nor the hall is looked up, and
      no ShowtimeSeat is created: every other table is left as it was. */
  function CreateShowtime(db: Db, movieId: Id, startAt: Instant, hallId: Id): (r: Db)
    ensures r.showtimes.rows == db.showtimes.rows + [Row(db.showtimes.nextId, Showtime(movieId, hallId, startAt))]
    ensures r.showtimes.nextId == db.showtimes.nextId + 1
    ensures r.(showtimes := db.showtimes) == db
    ensures Valid(db) ==> Valid(r)
  {
    db.(showtimes := Insert(db.showtimes, Showtime(movieId, hallId, startAt)))
  }

  /** The showtime with the given id; a missing one is ErrNotFound. */
  function GetShowtimeByID(db: Db, showtimeId: Id): (r: Result<Row<Showtime>>)
    ensures r.Ok? ==> r.value.id == showtimeId && r.value in db.showtimes.rows
    ensures r.Err? <==> forall x :: x in db.showtimes.rows ==> x.id != showtimeId
    ensures r.Err? ==> r.error == NotFound
  {
    match Lookup(db.showtimes.rows, showtimeId)
    case None => Err(NotFound)
    case Some(s) => Ok(Row(showtimeId, s))
  }

  /** Exactly the showtimes of the given movie. */
  function GetShowtimesByMovieID(db: Db, movieId: Id): (r: seq<Row<Showtime>>)
    ensures forall x :: x in r ==> x in db.showtimes.rows && x.val.movieId == movieId
    ensures forall x :: x in db.showtimes.rows && x.val.movieId == movieId ==> x in r
    ensures r == [] <==> forall x :: x in db.showtimes.rows ==> x.val.movieId != movieId
  {
    var r := Where(db.showtimes.rows, (x: Row<Showtime>) => x.val.movieId == movieId);
    assert r != [] ==> r[0] in r;
    r
  }

  /** Exactly the showtimes in the given hall. */
  function GetShowtimesByHallID(db: Db, hallId: Id): (r: seq<Row<Showtime>>)
    ensures forall x :: x in r ==> x in db.showtimes.rows && x.val.hallId == hallId
    ensures forall x :: x in db.showtimes.rows && x.val.hallId == hallId ==> x in r
    ensures r == [] <==> forall x :: x in db.showtimes.rows ==> x.val.hallId != hallId
  {
    var r := Where(db.showtimes.rows, (x: Row<Showtime>) => x.val.hallId == hallId);
    assert r != [] ==> r[0] in r;
    r
  }
}
