/** The showtime-seat service: the per-showtime copy of a hall's seats, the
    lookup by (showtime, seat) and the status-transition primitive. */
module ShowtimeSeats {
  import opened Errors
  import opened Tables
  import opened Model
  import Seats

  /** The records the initializer builds: one per seat, in the seats' order,
      each for the given showtime and available. */
  function NewShowtimeSeats(showtimeId: Id, seats: seq<Row<Seat>>): (r: seq<ShowtimeSeat>)
    ensures |r| == |seats|
    ensures forall i :: 0 <= i < |seats| ==> r[i] == ShowtimeSeat(showtimeId, seats[i].id, Available)
  {
    seq(|seats|, i requires 0 <= i < |seats| => ShowtimeSeat(showtimeId, seats[i].id, Available))
  }

  /** InitShowtimeSeatsForShowtimeTx: one available ShowtimeSeat per seat of
      the showtime's hall, written in one batch. */
  function InitShowtimeSeatsForShowtime(db: Db, showtime: Row<Showtime>): (r: Result<Db>)
    ensures r.Ok? ==> r.value == db.(showtimeSeats := Table(
              db.showtimeSeats.rows + Numbered(db.showtimeSeats.nextId,
                NewShowtimeSeats(showtime.id, Seats.GetSeatsByHallID(db, showtime.val.hallId))),
              db.showtimeSeats.nextId + |Seats.GetSeatsByHallID(db, showtime.val.hallId)|))
  {
    var seats := Seats.GetSeatsByHallID(db, showtime.val.hallId);
    match InsertBatch(db.showtimeSeats, NewShowtimeSeats(showtime.id, seats), Unchecked, SlotKey)
    case Err(e) => Err(e)
    case Ok(t) => Ok(db.(showtimeSeats := t))
  }

  /** The batch for distinct seats is admissible exactly when none of its
      (showtime, seat) pairs is taken. */
  lemma NewShowtimeSeatsAdmissible(rows: seq<Row<ShowtimeSeat>>, showtimeId: Id, seats: seq<Row<Seat>>)
    requires Increasing(seats)
    ensures BatchAdmissible(rows, NewShowtimeSeats(showtimeId, seats), Unchecked, SlotKey) <==>
              forall x, s :: x in rows && s in seats ==> SlotKey(x.val) != (showtimeId, s.id)
  {
    var vs := NewShowtimeSeats(showtimeId, seats);
    assert forall i, j :: 0 <= i < j < |vs| ==> SlotKey(vs[i]) != SlotKey(vs[j]);
    if forall x, s :: x in rows && s in seats ==> SlotKey(x.val) != (showtimeId, s.id) {
      forall i | 0 <= i < |vs| ensures forall x :: x in rows ==> SlotKey(x.val) != SlotKey(vs[i]) {
        assert seats[i] in seats;
      }
    } else {
      var x, s :| x in rows && s in seats && SlotKey(x.val) == (showtimeId, s.id);
      var i :| 0 <= i < |seats| && seats[i] == s;
      assert SlotKey(vs[i]) == SlotKey(x.val);
    }
  }

  /** The initializer succeeds exactly when no ShowtimeSeat of this showtime
      exists yet for a seat of its hall; otherwise the unique index
      (showtime, seat) refuses the batch. A successful run keeps the store
      valid. */
  lemma InitShowtimeSeatsOutcome(db: Db, showtime: Row<Showtime>)
    requires Valid(db)
    ensures InitShowtimeSeatsForShowtime(db, showtime).Ok? <==>
              forall x, s :: x in db.showtimeSeats.rows && s in db.seats.rows && s.val.hallId == showtime.val.hallId ==>
                SlotKey(x.val) != (showtime.id, s.id)
    ensures InitShowtimeSeatsForShowtime(db, showtime).Err? ==>
              InitShowtimeSeatsForShowtime(db, showtime).error == DuplicateKey
    ensures InitShowtimeSeatsForShowtime(db, showtime).Ok? ==> Valid(InitShowtimeSeatsForShowtime(db, showtime).value)
  {
    var seats := Seats.GetSeatsByHallID(db, showtime.val.hallId);
    var vs := NewShowtimeSeats(showtime.id, seats);
    WhereIncreasing(db.seats.rows, (x: Row<Seat>) => x.val.hallId == showtime.val.hallId);
    InsertBatchAdmissible(db.showtimeSeats, vs, Unchecked, SlotKey);
    NewShowtimeSeatsAdmissible(db.showtimeSeats.rows, showtime.id, seats);
  }

  /** GetShowtimeSeatByShowtimeIDSeatIDTx: the record for the pair; a
      missing one is the store's own not-found error, passed on unmapped. */
  function GetShowtimeSeatByShowtimeIDSeatID(db: Db, showtimeId: Id, seatId: Id): (r: Result<Row<ShowtimeSeat>>)
    ensures r.Ok? ==> r.value in db.showtimeSeats.rows && SlotKey(r.value.val) == (showtimeId, seatId)
    ensures r.Err? <==> forall x :: x in db.showtimeSeats.rows ==> SlotKey(x.val) != (showtimeId, seatId)
    ensures r.Err? ==> r.error == RecordNotFound
  {
    match First(db.showtimeSeats.rows, (x: Row<ShowtimeSeat>) => SlotKey(x.val) == (showtimeId, seatId))
    case None => Err(RecordNotFound)
    case Some(x) => Ok(x)
  }

  /** With the (showtime, seat) index in place the lookup finds exactly the
      stored record. */
  lemma GetShowtimeSeatFindsStored(db: Db, x: Row<ShowtimeSeat>)
    requires Valid(db) && x in db.showtimeSeats.rows
    ensures GetShowtimeSeatByShowtimeIDSeatID(db, x.val.showtimeId, x.val.seatId) == Ok(x)
  {
  }

  /** updateShowtimeSeatStatusTx: sets the status of the record with the
      given id. An absent id and a transition to the status the record
      already has are refused. */
  function UpdateShowtimeSeatStatus(db: Db, id: Id, target: Status): (r: Result<Db>)
    ensures r.Err? ==> r.error == ShowtimeSeatNotExist || r.error == ShowtimeSeatStatusNotChange
    ensures r.Err? && r.error == ShowtimeSeatNotExist <==> forall x :: x in db.showtimeSeats.rows ==> x.id != id
    ensures r.Ok? ==> exists ss :: (Row(id, ss) in db.showtimeSeats.rows && ss.status != target &&
              r.value == db.(showtimeSeats := Table(Replace(db.showtimeSeats.rows, id, ss.(status := target)),
                                                    db.showtimeSeats.nextId)))
  {
    match Lookup(db.showtimeSeats.rows, id)
    case None => Err(ShowtimeSeatNotExist)
    case Some(ss) =>
      if target == ss.status then Err(ShowtimeSeatStatusNotChange)
      else Ok(db.(showtimeSeats := Table(Replace(db.showtimeSeats.rows, id, ss.(status := target)),
                                         db.showtimeSeats.nextId)))
  }

  /** In a valid store: the transition is refused as a no-op exactly when
      the record already has the target status; a performed transition
      changes that record's status and nothing else, and keeps the store
      valid. */
  lemma UpdateShowtimeSeatStatusSpec(db: Db, id: Id, target: Status, ss: ShowtimeSeat)
    requires Valid(db) && Row(id, ss) in db.showtimeSeats.rows
    ensures UpdateShowtimeSeatStatus(db, id, target) == Err(ShowtimeSeatStatusNotChange) <==> ss.status == target
    ensures ss.status != target ==>
              UpdateShowtimeSeatStatus(db, id, target) ==
                Ok(db.(showtimeSeats := Table(Replace(db.showtimeSeats.rows, id, ss.(status := target)),
                                              db.showtimeSeats.nextId)))
    ensures ss.status != target ==> Valid(UpdateShowtimeSeatStatus(db, id, target).value)
  {
    IncreasingHasUniqueIds(db.showtimeSeats.rows);
    LookupStored(db.showtimeSeats.rows, id, ss);
    if ss.status != target {
      var v := ss.(status := target);
      ReplaceWellFormed(db.showtimeSeats, id, v);
      ReplaceUniqueKeys(db.showtimeSeats.rows, id, v, SlotKey);
    }
  }

  /** The primitive is not idempotent: repeating a performed transition is
      refused as a no-op. */
  lemma UpdateShowtimeSeatStatusTwice(db: Db, id: Id, target: Status)
    requires Valid(db) && UpdateShowtimeSeatStatus(db, id, target).Ok?
    ensures UpdateShowtimeSeatStatus(UpdateShowtimeSeatStatus(db, id, target).value, id, target) ==
              Err(ShowtimeSeatStatusNotChange)
  {
    var ss :| Row(id, ss) in db.showtimeSeats.rows && ss.status != target &&
              UpdateShowtimeSeatStatus(db, id, target).value ==
                db.(showtimeSeats := Table(Replace(db.showtimeSeats.rows, id, ss.(status := target)),
                                           db.showtimeSeats.nextId));
    ReplaceLookup(db.showtimeSeats, id, ss.(status := target));
  }
}
