/** The seat service: the seat-map builder that generates a hall's grid of
    seats, and the seat lookups. */
module Seats {
  import opened Errors
  import opened Tables
  import opened Model

  /** Row `row` of a hall's grid: one seat per column 0 .. cols-1, in order. */
  function GridRow(hallId: Id, row: int, cols: int): (r: seq<Seat>)
    decreases cols
    ensures |r| == if cols <= 0 then 0 else cols
    ensures forall c :: 0 <= c < |r| ==> r[c] == Seat(hallId, row, c)
  {
    if cols <= 0 then [] else GridRow(hallId, row, cols - 1) + [Seat(hallId, row, cols - 1)]
  }

  /** The seats the builder generates for a hall, rows 0 .. rows-1 each with
      columns 0 .. cols-1, in row-major order; nothing when either bound is
      not positive. */
  function SeatGrid(hallId: Id, rows: int, cols: int): (r: seq<Seat>)
    decreases rows
    ensures |r| == if rows <= 0 || cols <= 0 then 0 else rows * cols
  {
    if rows <= 0 then []
    else
      var r := SeatGrid(hallId, rows - 1, cols) + GridRow(hallId, rows - 1, cols);
      assert rows > 1 && cols > 0 ==> (rows - 1) * cols + cols == rows * cols;
      r
  }

  /** Seat (row, col) sits at position row * cols + col. */
  lemma {:induction false} SeatGridAt(hallId: Id, rows: int, cols: int, row: int, col: int)
    requires 0 <= row < rows && 0 <= col < cols
    ensures row * cols + col < |SeatGrid(hallId, rows, cols)|
    ensures SeatGrid(hallId, rows, cols)[row * cols + col] == Seat(hallId, row, col)
  {
    var prefix := SeatGrid(hallId, rows - 1, cols);
    if row < rows - 1 {
      SeatGridAt(hallId, rows - 1, cols, row, col);
    } else {
      assert row * cols + col == |prefix| + col;
    }
  }

  /** A seat is generated exactly when it lies in the hall and inside the
      bounds. */
  lemma SeatGridMembers(hallId: Id, rows: int, cols: int, s: Seat)
    ensures s in SeatGrid(hallId, rows, cols) <==>
              s.hallId == hallId && 0 <= s.row < rows && 0 <= s.col < cols
  {
    if s.hallId == hallId && 0 <= s.row < rows && 0 <= s.col < cols {
      SeatGridContains(hallId, rows, cols, s);
    }
    if s in SeatGrid(hallId, rows, cols) {
      SeatGridInBounds(hallId, rows, cols, s);
    }
  }

  /** Every seat inside the bounds is generated. */
  lemma SeatGridContains(hallId: Id, rows: int, cols: int, s: Seat)
    requires s.hallId == hallId && 0 <= s.row < rows && 0 <= s.col < cols
    ensures s in SeatGrid(hallId, rows, cols)
  {
    SeatGridAt(hallId, rows, cols, s.row, s.col);
  }

  /** Every generated seat lies in the hall and inside the bounds. */
  lemma {:induction false} SeatGridInBounds(hallId: Id, rows: int, cols: int, s: Seat)
    requires s in SeatGrid(hallId, rows, cols)
    ensures s.hallId == hallId && 0 <= s.row < rows && 0 <= s.col < cols
  {
    if rows > 0 {
      var line := GridRow(hallId, rows - 1, cols);
      if s in line {
        var i :| 0 <= i < |line| && line[i] == s;
      } else {
        SeatGridInBounds(hallId, rows - 1, cols, s);
      }
    }
  }

  /** No seat is generated twice. */
  lemma {:induction false} SeatGridDistinct(hallId: Id, rows: int, cols: int)
    ensures forall i, j :: 0 <= i < j < |SeatGrid(hallId, rows, cols)| ==>
              SeatGrid(hallId, rows, cols)[i] != SeatGrid(hallId, rows, cols)[j]
  {
    if rows > 0 {
      var prefix := SeatGrid(hallId, rows - 1, cols);
      var line := GridRow(hallId, rows - 1, cols);
      var grid := SeatGrid(hallId, rows, cols);
      SeatGridDistinct(hallId, rows - 1, cols);
      forall i, j | 0 <= i < j < |grid| ensures grid[i] != grid[j] {
        if j >= |prefix| && i < |prefix| {
          SeatGridMembers(hallId, rows - 1, cols, prefix[i]);
          assert grid[j] == line[j - |prefix|];
        } else if i >= |prefix| {
          assert grid[i] == line[i - |prefix|] && grid[j] == line[j - |prefix|];
        } else {
          assert grid[i] == prefix[i] && grid[j] == prefix[j];
        }
      }
    }
  }

  /** The grid's pairs (row, col) are pairwise distinct, as the per-hall
      unique index on seats demands. */
  lemma SeatGridKeysDistinct(hallId: Id, rows: int, cols: int)
    ensures forall i, j :: 0 <= i < j < |SeatGrid(hallId, rows, cols)| ==>
              SeatPlace(SeatGrid(hallId, rows, cols)[i]) != SeatPlace(SeatGrid(hallId, rows, cols)[j])
  {
    SeatGridDistinct(hallId, rows, cols);
  }

  /** InitSeatsForHallTx: the grid for the hall, written in one batch. */
  function InitSeatsForHall(db: Db, hall: Row<Hall>): (r: Result<Db>)
    ensures r.Ok? ==> r.value == db.(seats := Table(
              db.seats.rows + Numbered(db.seats.nextId, SeatGrid(hall.id, hall.val.rows, hall.val.cols)),
              db.seats.nextId + |SeatGrid(hall.id, hall.val.rows, hall.val.cols)|))
    ensures hall.val.rows <= 0 || hall.val.cols <= 0 ==> r == Ok(db)
  {
    match InsertBatch(db.seats, SeatGrid(hall.id, hall.val.rows, hall.val.cols), SeatCheck, SeatPlace)
    case Err(e) => Err(e)
    case Ok(t) => Ok(db.(seats := t))
  }

  /** The grid starts at (0, 0), which the check constraint row > 0, col > 0
      refuses: as written, the builder fails for every hall with at least
      one row and one column. */
  lemma InitSeatsRefusedByCheck(db: Db, hall: Row<Hall>)
    requires hall.val.rows >= 1 && hall.val.cols >= 1
    ensures SeatGrid(hall.id, hall.val.rows, hall.val.cols)[0] == Seat(hall.id, 0, 0)
    ensures InitSeatsForHall(db, hall) == Err(CheckViolation)
  {
    SeatGridAt(hall.id, hall.val.rows, hall.val.cols, 0, 0);
  }

  /** The grid numbered from 1, the convention the check constraint expects. */
  function SeatGridFromOne(hallId: Id, rows: int, cols: int): (r: seq<Seat>)
    ensures |r| == |SeatGrid(hallId, rows, cols)|
  {
    var grid := SeatGrid(hallId, rows, cols);
    seq(|grid|, i requires 0 <= i < |grid| => Seat(hallId, grid[i].row + 1, grid[i].col + 1))
  }

  /** Numbered from 1, every seat passes the check constraint, no two seats
      collide, and the batch is accepted for a hall that has no seats yet. */
  lemma SeatGridFromOneAccepted(db: Db, hall: Row<Hall>)
    requires forall x :: x in db.seats.rows ==> x.val.hallId != hall.id
    ensures forall s :: s in SeatGridFromOne(hall.id, hall.val.rows, hall.val.cols) ==> SeatCheck(s)
    ensures InsertBatch(db.seats, SeatGridFromOne(hall.id, hall.val.rows, hall.val.cols), SeatCheck, SeatPlace).Ok?
  {
    var grid := SeatGrid(hall.id, hall.val.rows, hall.val.cols);
    var shifted := SeatGridFromOne(hall.id, hall.val.rows, hall.val.cols);
    forall i | 0 <= i < |grid| ensures grid[i].hallId == hall.id && grid[i].row >= 0 && grid[i].col >= 0 {
      SeatGridMembers(hall.id, hall.val.rows, hall.val.cols, grid[i]);
    }
    SeatGridDistinct(hall.id, hall.val.rows, hall.val.cols);
    InsertBatchAdmissible(db.seats, shifted, SeatCheck, SeatPlace);
  }

  /** The seat with the given id; a missing one is ErrNotFound. */
  function GetSeatByID(db: Db, seatId: Id): (r: Result<Row<Seat>>)
    ensures r.Ok? ==> r.value.id == seatId && r.value in db.seats.rows
    ensures r.Err? <==> forall x :: x in db.seats.rows ==> x.id != seatId
    ensures r.Err? ==> r.error == NotFound
  {
    match Lookup(db.seats.rows, seatId)
    case None => Err(NotFound)
    case Some(s) => Ok(Row(seatId, s))
  }

  /** Exactly the seats of the given hall, in table order. */
  function GetSeatsByHallID(db: Db, hallId: Id): (r: seq<Row<Seat>>)
    ensures forall x :: x in r ==> x in db.seats.rows && x.val.hallId == hallId
    ensures forall x :: x in db.seats.rows && x.val.hallId == hallId ==> x in r
  {
    Where(db.seats.rows, (x: Row<Seat>) => x.val.hallId == hallId)
  }
}
