/** The hall service: creating a hall with its seat map, and the guarded
    update and delete, which refuse to act while a showtime uses the hall. */
module Halls {
  import opened Errors
  import opened Tables
  import opened Model
  import Showtimes
  import Seats

  /** CreateHall: the hall, then its seat grid, in one transaction. The new
      hall gets the next primary key; nothing is kept when a step fails. */
  function CreateHall(db: Db, hall: Hall): (r: Result<Db>)
    ensures !HallCheck(hall) ==> r == Err(CheckViolation)
    ensures r.Ok? ==> r.value.halls == Insert(db.halls, hall)
    ensures r.Ok? ==> (r.value.seats.rows ==
              db.seats.rows + Numbered(db.seats.nextId, Seats.SeatGrid(db.halls.nextId, hall.rows, hall.cols)))
    ensures r.Ok? ==> r.value.(halls := db.halls, seats := db.seats) == db
  {
    match InsertChecked(db.halls, hall, HallCheck, HallName)
    case Err(e) => Err(e)
    case Ok(halls) => Seats.InitSeatsForHall(db.(halls := halls), Row(db.halls.nextId, hall))
  }

  /** As written, no hall can be created: the hall's own check demands at
      least one row and one column, and then the 0-based grid contains the
      seat (0, 0) that the seats' check refuses. */
  lemma CreateHallAlwaysFails(db: Db, hall: Hall)
    ensures CreateHall(db, hall).Err?
    ensures HallCheck(hall) && KeyFree(db.halls.rows, HallName, hall.name) ==> CreateHall(db, hall) == Err(CheckViolation)
    ensures HallCheck(hall) && !KeyFree(db.halls.rows, HallName, hall.name) ==> CreateHall(db, hall) == Err(DuplicateKey)
  {
    if HallCheck(hall) && KeyFree(db.halls.rows, HallName, hall.name) {
      var halls := Insert(db.halls, hall);
      Seats.InitSeatsRefusedByCheck(db.(halls := halls), Row(db.halls.nextId, hall));
    }
  }

  /** CreateHall with the grid numbered from 1, as the check constraints on
      seats require. */
  function CreateHallFromOne(db: Db, hall: Hall): (r: Result<Db>)
    ensures r.Ok? ==> r.value.halls == Insert(db.halls, hall)
    ensures r.Ok? ==> (r.value.seats.rows ==
              db.seats.rows + Numbered(db.seats.nextId, Seats.SeatGridFromOne(db.halls.nextId, hall.rows, hall.cols)))
    ensures r.Ok? ==> r.value.(halls := db.halls, seats := db.seats) == db
  {
    match InsertChecked(db.halls, hall, HallCheck, HallName)
    case Err(e) => Err(e)
    case Ok(halls) =>
      match InsertBatch(db.seats, Seats.SeatGridFromOne(db.halls.nextId, hall.rows, hall.cols), SeatCheck, SeatPlace)
      case Err(e) => Err(e)
      case Ok(seats) => Ok(db.(halls := halls, seats := seats))
  }

  /** Numbered from 1, a hall that passes its check and whose name is free
      is created together with its Rows x Cols seats, and the store stays
      valid. */
  lemma CreateHallFromOneSucceeds(db: Db, hall: Hall)
    requires Valid(db)
    requires forall s :: s in db.seats.rows ==> s.val.hallId != db.halls.nextId
    requires HallCheck(hall) && KeyFree(db.halls.rows, HallName, hall.name)
    ensures CreateHallFromOne(db, hall).Ok?
    ensures |CreateHallFromOne(db, hall).value.seats.rows| == |db.seats.rows| + hall.rows * hall.cols
    ensures Valid(CreateHallFromOne(db, hall).value)
  {
    var grid := Seats.SeatGridFromOne(db.halls.nextId, hall.rows, hall.cols);
    Seats.SeatGridFromOneAccepted(db, Row(db.halls.nextId, hall));
    InsertBatchAdmissible(db.seats, grid, SeatCheck, SeatPlace);
  }

  /** The hall with the given id; a missing one is ErrNotFound. */
  function GetHallByID(db: Db, hallId: Id): (r: Result<Row<Hall>>)
    ensures r.Ok? ==> r.value.id == hallId && r.value in db.halls.rows
    ensures r.Err? <==> forall x :: x in db.halls.rows ==> x.id != hallId
    ensures r.Err? ==> r.error == NotFound
  {
    match Lookup(db.halls.rows, hallId)
    case None => Err(NotFound)
    case Some(h) => Ok(Row(hallId, h))
  }

  /** The hall with the given name; a missing one is ErrNotFound. */
  function GetHallByName(db: Db, name: string): (r: Result<Row<Hall>>)
    ensures r.Ok? ==> r.value in db.halls.rows && r.value.val.name == name
    ensures r.Err? <==> forall x :: x in db.halls.rows ==> x.val.name != name
    ensures r.Err? ==> r.error == NotFound
  {
    match First(db.halls.rows, (x: Row<Hall>) => x.val.name == name)
    case None => Err(NotFound)
    case Some(x) => Ok(x)
  }

  /** UpdateHall: refused while a showtime uses the hall (checked first),
      then when the hall does not exist, then when the new name belongs to
      another hall (looked up only when the name changes). Only the hall
      record is rewritten: its seats are not regenerated. */
  function UpdateHall(db: Db, hallId: Id, hall: Hall): (r: Result<Db>)
    ensures (exists x :: x in db.showtimes.rows && x.val.hallId == hallId) ==> r == Err(RelatedResourceExists)
    ensures ((forall x :: x in db.showtimes.rows ==> x.val.hallId != hallId) &&
             (forall x :: x in db.halls.rows ==> x.id != hallId)) ==> r == Err(NotFound)
    ensures r.Ok? ==> r.value == db.(halls := Table(Replace(db.halls.rows, hallId, hall), db.halls.nextId))
    ensures r.Ok? ==> HallCheck(hall) && forall x :: x in db.halls.rows && x.id != hallId ==> x.val.name != hall.name
  {
    if Showtimes.GetShowtimesByHallID(db, hallId) != [] then Err(RelatedResourceExists)
    else match GetHallByID(db, hallId)
      case Err(e) => Err(e)
      case Ok(existing) =>
        if existing.val.name != hall.name && GetHallByName(db, hall.name).Ok? &&
           GetHallByName(db, hall.name).value.id != hallId
        then Err(AlreadyExists)
        else match UpdateChecked(db.halls, hallId, hall, HallCheck, HallName)
          case Err(e) => Err(e)
          case Ok(halls) => Ok(db.(halls := halls))
  }

  /** In a valid store UpdateHall succeeds exactly when no showtime uses
      the hall, the hall exists, the new values pass the check and the new
      name is not another hall's, and the result is valid. */
  lemma UpdateHallOutcome(db: Db, hallId: Id, hall: Hall)
    requires Valid(db)
    ensures UpdateHall(db, hallId, hall).Ok? <==>
              (forall x :: x in db.showtimes.rows ==> x.val.hallId != hallId) &&
              (exists x :: x in db.halls.rows && x.id == hallId) &&
              HallCheck(hall) &&
              (forall x :: x in db.halls.rows && x.id != hallId ==> x.val.name != hall.name)
    ensures UpdateHall(db, hallId, hall).Ok? ==> Valid(UpdateHall(db, hallId, hall).value)
  {
    if UpdateHall(db, hallId, hall).Ok? {
      UpdateCheckedKeeps(db.halls, hallId, hall, HallCheck, HallName);
    }
  }

  /** A new name that another hall holds is ErrAlreadyExists, once the
      showtime guard and the existence check have passed. */
  lemma UpdateHallNameTaken(db: Db, hallId: Id, hall: Hall, other: Row<Hall>)
    requires Valid(db)
    requires forall x :: x in db.showtimes.rows ==> x.val.hallId != hallId
    requires exists x :: x in db.halls.rows && x.id == hallId
    requires other in db.halls.rows && other.id != hallId && other.val.name == hall.name
    ensures UpdateHall(db, hallId, hall) == Err(AlreadyExists)
  {
    IncreasingHasUniqueIds(db.halls.rows);
    var existing := GetHallByID(db, hallId).value;
    assert existing.val.name != hall.name;
    assert GetHallByName(db, hall.name).value == other;
  }

  /** The ids of the hall's seats. */
  function HallSeatIds(db: Db, hallId: Id): set<Id> {
    set s | s in db.seats.rows && s.val.hallId == hallId :: s.id
  }

  /** The filters of the cascade: rows that survive the hall's deletion. */
  function KeepHall(hallId: Id): Row<Hall> -> bool {
    (x: Row<Hall>) => x.id != hallId
  }

  function KeepSeat(hallId: Id): Row<Seat> -> bool {
    (s: Row<Seat>) => s.val.hallId != hallId
  }

  function KeepShowtimeSeat(removed: set<Id>): Row<ShowtimeSeat> -> bool {
    (x: Row<ShowtimeSeat>) => x.val.seatId !in removed
  }

  /** The rows that remain when a hall is deleted: the foreign keys cascade
      from the hall to its seats and from each removed seat to its
      ShowtimeSeats. */
  function DeleteHallCascade(db: Db, hallId: Id): (r: Db)
    ensures forall x :: x in r.halls.rows <==> x in db.halls.rows && x.id != hallId
    ensures forall x :: x in r.seats.rows <==> x in db.seats.rows && x.val.hallId != hallId
    ensures forall x :: x in r.showtimeSeats.rows <==>
              x in db.showtimeSeats.rows &&
              forall s :: s in db.seats.rows && s.id == x.val.seatId ==> s.val.hallId != hallId
    ensures r.(halls := db.halls, seats := db.seats, showtimeSeats := db.showtimeSeats) == db
  {
    db.(halls := Table(Where(db.halls.rows, KeepHall(hallId)), db.halls.nextId),
        seats := Table(Where(db.seats.rows, KeepSeat(hallId)), db.seats.nextId),
        showtimeSeats := Table(Where(db.showtimeSeats.rows, KeepShowtimeSeat(HallSeatIds(db, hallId))),
                               db.showtimeSeats.nextId))
  }

  /** The cascade keeps every table constraint. */
  lemma DeleteHallCascadeKeepsValid(db: Db, hallId: Id)
    requires Valid(db)
    ensures Valid(DeleteHallCascade(db, hallId))
  {
    WhereKeeps(db.halls, KeepHall(hallId), HallName, HallCheck);
    WhereKeeps(db.seats, KeepSeat(hallId), SeatPlace, SeatCheck);
    WhereKeeps(db.showtimeSeats, KeepShowtimeSeat(HallSeatIds(db, hallId)), SlotKey, Unchecked);
  }

  /** No existence check: deleting an absent hall that owns no seats, and
      that no showtime uses, succeeds and changes nothing. */
  lemma DeleteAbsentHall(db: Db, hallId: Id)
    requires forall x :: x in db.showtimes.rows ==> x.val.hallId != hallId
    requires forall x :: x in db.halls.rows ==> x.id != hallId
    requires forall s :: s in db.seats.rows ==> s.val.hallId != hallId
    ensures DeleteHallByID(db, hallId) == Ok(db)
  {
    assert HallSeatIds(db, hallId) == {};
    WhereAll(db.halls.rows, KeepHall(hallId));
    WhereAll(db.seats.rows, KeepSeat(hallId));
    WhereAll(db.showtimeSeats.rows, KeepShowtimeSeat(HallSeatIds(db, hallId)));
  }

  /** DeleteHallByID: refused while a showtime uses the hall; otherwise the
      hall is deleted with the cascade, without checking that it exists. */
  function DeleteHallByID(db: Db, hallId: Id): (r: Result<Db>)
    ensures r.Err? <==> exists x :: x in db.showtimes.rows && x.val.hallId == hallId
    ensures r.Err? ==> r.error == RelatedResourceExists
    ensures r.Ok? ==> r.value == DeleteHallCascade(db, hallId)
  {
    if Showtimes.GetShowtimesByHallID(db, hallId) != [] then Err(RelatedResourceExists)
    else Ok(DeleteHallCascade(db, hallId))
  }
}
