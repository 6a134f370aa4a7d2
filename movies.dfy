/** The movie service: creating movies, the guarded update and delete,
    which refuse to act while a showtime shows the movie, and the lookups. */
module Movies {
  import opened Errors
  import opened Tables
  import opened Model
  import Showtimes

  /** CreateMovie: inserts without looking the title up first; only the
      unique index on titles refuses a duplicate. */
  function CreateMovie(db: Db, movie: Movie): (r: Result<Db>)
    ensures r.Ok? <==> forall x :: x in db.movies.rows ==> x.val.title != movie.title
    ensures r.Err? ==> r.error == DuplicateKey
    ensures r.Ok? ==> r.value == db.(movies := Insert(db.movies, movie))
    ensures r.Ok? && Valid(db) ==> Valid(r.value)
  {
    match InsertChecked(db.movies, movie, Unchecked, MovieTitle)
    case Err(e) => Err(e)
    case Ok(movies) => Ok(db.(movies := movies))
  }

  /** The movie with the given id; a missing one is ErrNotFound. */
  function GetMovieByID(db: Db, movieId: Id): (r: Result<Row<Movie>>)
    ensures r.Ok? ==> r.value.id == movieId && r.value in db.movies.rows
    ensures r.Err? <==> forall x :: x in db.movies.rows ==> x.id != movieId
    ensures r.Err? ==> r.error == NotFound
  {
    match Lookup(db.movies.rows, movieId)
    case None => Err(NotFound)
    case Some(m) => Ok(Row(movieId, m))
  }

  /** The movie with the given title; a missing one is ErrNotFound. */
  function GetMovieByTitle(db: Db, title: string): (r: Result<Row<Movie>>)
    ensures r.Ok? ==> r.value in db.movies.rows && r.value.val.title == title
    ensures r.Err? <==> forall x :: x in db.movies.rows ==> x.val.title != title
    ensures r.Err? ==> r.error == NotFound
  {
    match First(db.movies.rows, (x: Row<Movie>) => x.val.title == title)
    case None => Err(NotFound)
    case Some(x) => Ok(x)
  }

  /** UpdateMovie: refused when the movie does not exist (checked first),
      then while a showtime shows it, then when the new title belongs to
      another movie (looked up only when the title changes). Only the movie
      record is rewritten. */
  function UpdateMovie(db: Db, movieId: Id, movie: Movie): (r: Result<Db>)
    ensures (forall x :: x in db.movies.rows ==> x.id != movieId) ==> r == Err(NotFound)
    ensures ((exists x :: x in db.movies.rows && x.id == movieId) &&
             (exists x :: x in db.showtimes.rows && x.val.movieId == movieId)) ==> r == Err(RelatedResourceExists)
    ensures r.Ok? ==> r.value == db.(movies := Table(Replace(db.movies.rows, movieId, movie), db.movies.nextId))
    ensures r.Ok? ==> forall x :: x in db.movies.rows && x.id != movieId ==> x.val.title != movie.title
  {
    match GetMovieByID(db, movieId)
    case Err(e) => Err(e)
    case Ok(existing) =>
      if Showtimes.GetShowtimesByMovieID(db, movieId) != [] then Err(RelatedResourceExists)
      else if existing.val.title != movie.title && GetMovieByTitle(db, movie.title).Ok? &&
              GetMovieByTitle(db, movie.title).value.id != movieId
      then Err(AlreadyExists)
      else match UpdateChecked(db.movies, movieId, movie, Unchecked, MovieTitle)
        case Err(e) => Err(e)
        case Ok(movies) => Ok(db.(movies := movies))
  }

  /** In a valid store UpdateMovie succeeds exactly when the movie exists,
      no showtime shows it and the new title is not another movie's, and
      the result is valid. */
  lemma UpdateMovieOutcome(db: Db, movieId: Id, movie: Movie)
    requires Valid(db)
    ensures UpdateMovie(db, movieId, movie).Ok? <==>
              (exists x :: x in db.movies.rows && x.id == movieId) &&
              (forall x :: x in db.showtimes.rows ==> x.val.movieId != movieId) &&
              (forall x :: x in db.movies.rows && x.id != movieId ==> x.val.title != movie.title)
    ensures UpdateMovie(db, movieId, movie).Ok? ==> Valid(UpdateMovie(db, movieId, movie).value)
  {
    if UpdateMovie(db, movieId, movie).Ok? {
      UpdateCheckedKeeps(db.movies, movieId, movie, Unchecked, MovieTitle);
    }
  }

  /** A new title that another movie holds is ErrAlreadyExists, once the
      existence check and the showtime guard have passed. */
  lemma UpdateMovieTitleTaken(db: Db, movieId: Id, movie: Movie, other: Row<Movie>)
    requires Valid(db)
    requires exists x :: x in db.movies.rows && x.id == movieId
    requires forall x :: x in db.showtimes.rows ==> x.val.movieId != movieId
    requires other in db.movies.rows && other.id != movieId && other.val.title == movie.title
    ensures UpdateMovie(db, movieId, movie) == Err(AlreadyExists)
  {
    IncreasingHasUniqueIds(db.movies.rows);
    var existing := GetMovieByID(db, movieId).value;
    assert existing.val.title != movie.title;
    assert GetMovieByTitle(db, movie.title).value == other;
  }

  /** DeleteMovieByID: refused while a showtime shows the movie; otherwise
      the row with that id is deleted, without checking that it exists. */
  function DeleteMovieByID(db: Db, movieId: Id): (r: Result<Db>)
    ensures r.Err? <==> exists x :: x in db.showtimes.rows && x.val.movieId == movieId
    ensures r.Err? ==> r.error == RelatedResourceExists
    ensures r.Ok? ==> r.value.(movies := db.movies) == db && r.value.movies.nextId == db.movies.nextId
    ensures r.Ok? ==> forall x :: x in r.value.movies.rows <==> x in db.movies.rows && x.id != movieId
    ensures r.Ok? && (forall x :: x in db.movies.rows ==> x.id != movieId) ==> r.value == db
    ensures r.Ok? && Valid(db) ==> Valid(r.value)
  {
    if Showtimes.GetShowtimesByMovieID(db, movieId) != [] then Err(RelatedResourceExists)
    else
      var r := db.(movies := Table(Remove(db.movies.rows, movieId), db.movies.nextId));
      assert Valid(db) ==> Valid(r) by {
        if Valid(db) {
          forall x, y | x in r.movies.rows && y in r.movies.rows && x.val.title == y.val.title
            ensures x == y {
          }
        }
      }
      Ok(r)
  }
}
