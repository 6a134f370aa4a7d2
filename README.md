# Movie reservation core, in Dafny

This project models the service layer of a movie-reservation backend. It covers:

- halls and their seat grids;
- movies and showtimes;
- the per-showtime copy of a hall's seats (a *ShowtimeSeat*, with the status available, locked or sold);
- reservations.

The services run against a relational store. The model gives that store the source's constraints:

- an auto-increment primary key on each table;
- the unique indexes on movie titles, hall names, seats `(hall, row, col)`, ShowtimeSeats `(showtime, seat)` and reservations `(showtime, seat)`;
- the check constraints `rows > 0` and `cols > 0` on halls, and `row > 0` and `col > 0` on seats;
- the delete cascades from a hall to its seats, and from a seat to its ShowtimeSeats.

Every service call that opens a transaction is all-or-nothing.

The model has two layers:

- **Pure definitions.** There is one module per service file: `Showtimes`, `Seats`, `ShowtimeSeats`, `Halls`, `Movies`, `Reservations`. Each defines its operations as functions from a store value `Db` to a result. `Tables` gives the generic table operations with their unique-index and check-constraint failures. `Model` holds the records and the constraints (`Valid`).
- **The mutable store.** `Service.Store` is a class whose six fields are the tables. Its methods run the services' steps in the source's order, with the source's loops:
  - the nested row/column loop of the seat builder;
  - the loop that builds the ShowtimeSeats of a showtime;
  - the scan of a user's reservations in `Reserve`.

  Each method is proved to leave the store exactly as the pure definition says. A transaction's body (`ReserveTx`, `CancelReservationTx`, `CreateHallTx`) may stop half-way. Its wrapper restores the state from before it when the body fails (`Commit`).

The proofs build on top of both layers:

- `Consistency` defines the cross-table invariant `Consistent`:
  - a ShowtimeSeat is locked exactly when a reservation holds its (showtime, seat) pair;
  - every reservation has its ShowtimeSeat;
  - a user holds at most one reservation per showtime;
  - every ShowtimeSeat belongs to an existing showtime and to a seat of that showtime's hall;
  - every seat belongs to an existing hall.

  `Consistency` proves that reserving and cancelling keep this invariant. It also proves that, under it, the locked count of a showtime equals its reservation count.
- `Lifecycle` proves the same for the other writes. It also holds the second finding below.
- `Booking` proves what a reservation does to the ticket count and which repeated requests are refused, and that cancelling undoes a reservation.

Where the code and its design notes disagree, the model follows the code:

- Seats are numbered from 0, which the seats' check constraint refuses (Finding 1).
- Creating a showtime does not create its ShowtimeSeats (Finding 2).
- Creating a hall with a taken name is refused by the unique index: the error is a duplicate-key error, not the service's "already exists" error.

## Model

| member | source | states |
|---|---|---|
| Tables.InsertChecked | internal/model/model.go:39-40 | an insert succeeds exactly when the check constraint holds and no row has the same unique key; the error is the check violation or the duplicate key; success appends one row under the next id and keeps the constraints |
| Tables.InsertBatch | internal/repository/seat_repo.go:46-52 | a batch insert writes every row, numbered from the next id in order, or fails with a check or duplicate-key error and writes nothing |
| Tables.InsertBatchAdmissible | internal/repository/seat_repo.go:46-52 | the batch is written exactly when every row passes the check, no key is taken and the batch's keys are distinct; a written batch keeps every table constraint |
| Tables.UpdateChecked | internal/repository/hall_repo.go:84-90 | an update by id succeeds exactly when the check holds and no other row has the new key, and it rewrites only that row |
| Tables.UpdateCheckedKeeps | internal/repository/hall_repo.go:84-90 | a performed update keeps the primary keys, the unique index and the check constraint |
| Tables.Remove | internal/repository/movie_repo.go:64-72 | deleting by id keeps exactly the rows with another id, in order; deleting an absent id changes nothing |
| Showtimes.CreateShowtime | internal/service/showtime_service.go:37-46 | exactly one showtime is appended with the given movie, hall and start, under the next id; every other table is unchanged; constraints are kept |
| Showtimes.GetShowtimeByID | internal/service/showtime_service.go:48-57 | the stored showtime with that id; ErrNotFound exactly when none has it |
| Showtimes.GetShowtimesByMovieID | internal/service/showtime_service.go:59-64 | exactly the stored showtimes of that movie |
| Showtimes.GetShowtimesByHallID | internal/service/showtime_service.go:66-71 | exactly the stored showtimes in that hall |
| Seats.GridRow | internal/service/seat_service.go:58-64 | one row of the grid: `cols` seats of that hall and row, columns 0..cols-1 in order, none when cols <= 0 |
| Seats.SeatGrid | internal/service/seat_service.go:57-65 | the builder's output has rows*cols seats when both are positive, none otherwise |
| Seats.SeatGridAt | internal/service/seat_service.go:57-65 | seat (row, col) sits at position row*cols+col: row-major order |
| Seats.SeatGridMembers | internal/service/seat_service.go:57-65 | a seat is generated exactly when it has the hall's id, 0 <= row < rows and 0 <= col < cols |
| Seats.SeatGridDistinct | internal/service/seat_service.go:57-65 | no seat is generated twice |
| Seats.SeatGridKeysDistinct | internal/model/model.go:58-60 | the generated `(hall,row,col)` keys are pairwise distinct, as the unique index requires |
| Seats.InitSeatsForHall | internal/service/seat_service.go:52-69 | success appends exactly the grid, numbered from the next seat id; a hall with rows <= 0 or cols <= 0 gets no seats |
| Seats.InitSeatsRefusedByCheck | internal/service/seat_service.go:57-67 | as written, the first generated seat is (0, 0), so for every hall with rows, cols >= 1 the batch fails with a check violation |
| Seats.SeatGridFromOne | internal/model/model.go:59-60 | the grid numbered from 1: same size and order, every seat passes `row > 0 && col > 0` |
| Seats.SeatGridFromOneAccepted | internal/model/model.go:58-60 | for a hall that has no seats yet, the 1-based grid passes the check constraint and the unique index |
| Seats.GetSeatByID | internal/service/seat_service.go:71-80 | the stored seat with that id; ErrNotFound exactly when none has it |
| Seats.GetSeatsByHallID | internal/service/seat_service.go:82-88 | exactly the stored seats of that hall |
| ShowtimeSeats.NewShowtimeSeats | internal/service/showtimeSeat_service.go:60-67 | one record per seat, in the seats' order, with the showtime's id, the seat's id and status available |
| ShowtimeSeats.InitShowtimeSeatsForShowtime | internal/service/showtimeSeat_service.go:54-69 | success appends exactly those records for the seats of the showtime's hall |
| ShowtimeSeats.NewShowtimeSeatsAdmissible | internal/model/model.go:75-76 | the batch is admissible exactly when none of its `(showtime, seat)` pairs is taken |
| ShowtimeSeats.InitShowtimeSeatsOutcome | internal/service/showtimeSeat_service.go:54-69 | the initializer succeeds exactly when no ShowtimeSeat of the showtime exists yet for a seat of its hall, and otherwise fails with a duplicate key; success keeps the store valid |
| ShowtimeSeats.GetShowtimeSeatByShowtimeIDSeatID | internal/service/showtimeSeat_service.go:86-88 | a stored record with both ids; the unmapped not-found error exactly when there is none |
| ShowtimeSeats.GetShowtimeSeatFindsStored | internal/service/showtimeSeat_service.go:86-88 | in a valid store the lookup finds exactly the stored record for the pair |
| ShowtimeSeats.UpdateShowtimeSeatStatus | internal/service/showtimeSeat_service.go:105-120 | an absent id gives ErrShowtimeSeatNotExist (exactly then); otherwise the result is that error or ErrShowtimeSeatStatusNotChange; success replaces only that record's status |
| ShowtimeSeats.UpdateShowtimeSeatStatusSpec | internal/service/showtimeSeat_service.go:114-119 | the no-op error comes exactly when the record already has the target status; otherwise only that record's status changes and the store stays valid |
| ShowtimeSeats.UpdateShowtimeSeatStatusTwice | internal/service/showtimeSeat_service.go:114-116 | repeating a performed transition fails with ErrShowtimeSeatStatusNotChange: the primitive is not idempotent |
| Halls.CreateHall | internal/service/hall_service.go:39-46 | a hall failing its check is refused; success inserts the hall under the next id and its grid, and touches no other table |
| Halls.CreateHallAlwaysFails | internal/service/hall_service.go:39-46 | as written, every CreateHall fails: a duplicate name with a duplicate-key error, otherwise a check violation from the seat (0, 0) |
| Halls.CreateHallFromOne | internal/service/hall_service.go:39-46 | corrected CreateHall: the hall, then its 1-based grid |
| Halls.CreateHallFromOneSucceeds | internal/service/hall_service.go:39-46 | with the 1-based grid, a hall that passes its check and has a free name is created with rows*cols seats, and the store stays valid |
| Halls.GetHallByID | internal/service/hall_service.go:99-108 | the stored hall with that id; ErrNotFound exactly when none has it |
| Halls.GetHallByName | internal/service/hall_service.go:110-119 | a stored hall with that name; ErrNotFound exactly when none has it |
| Halls.UpdateHall | internal/service/hall_service.go:48-82 | checks in order: a showtime in the hall gives ErrRelatedResourceExists; then an absent hall gives ErrNotFound; success rewrites only that hall record, with a valid and unique name |
| Halls.UpdateHallOutcome | internal/service/hall_service.go:48-82 | the update succeeds exactly when no showtime uses the hall, it exists, the values pass the check and the name is not another hall's; success keeps the store valid |
| Halls.UpdateHallNameTaken | internal/service/hall_service.go:70-78 | a new name held by another hall gives ErrAlreadyExists once the first two checks pass |
| Halls.DeleteHallCascade | internal/model/model.go:62-80 | the delete removes the hall, its seats and the ShowtimeSeats of those seats, and keeps everything else |
| Halls.DeleteHallCascadeKeepsValid | internal/model/model.go:62-80 | the cascade keeps every table constraint |
| Halls.DeleteAbsentHall | internal/service/hall_service.go:84-97 | no existence check: deleting an absent hall that owns nothing and that no showtime uses succeeds and changes nothing |
| Halls.DeleteHallByID | internal/service/hall_service.go:84-97 | fails, with ErrRelatedResourceExists, exactly when a showtime uses the hall; otherwise the cascade |
| Movies.CreateMovie | internal/service/movie_service.go:41-46 | succeeds exactly when the title is free, otherwise a duplicate-key error; success appends the movie and keeps the store valid |
| Movies.GetMovieByID | internal/service/movie_service.go:102-111 | the stored movie with that id; ErrNotFound exactly when none has it |
| Movies.GetMovieByTitle | internal/service/movie_service.go:113-122 | a stored movie with that title; ErrNotFound exactly when none has it |
| Movies.UpdateMovie | internal/service/movie_service.go:51-85 | checks in order: an absent movie gives ErrNotFound; then a showtime of it gives ErrRelatedResourceExists; success rewrites only that movie record, with a unique title |
| Movies.UpdateMovieOutcome | internal/service/movie_service.go:51-85 | the update succeeds exactly when the movie exists, no showtime shows it and the title is not another movie's; success keeps the store valid |
| Movies.UpdateMovieTitleTaken | internal/service/movie_service.go:73-81 | a title held by another movie gives ErrAlreadyExists once the first two checks pass |
| Movies.DeleteMovieByID | internal/service/movie_service.go:87-100 | fails, with ErrRelatedResourceExists, exactly when a showtime shows the movie; otherwise removes exactly the row with that id (nothing when it is absent) and keeps the store valid |
| Reservations.ReservationsOfShowtime | internal/service/reservation_service.go:112 | exactly the stored reservations of the showtime |
| Reservations.ReservationsOfShowtimeCount | internal/service/reservation_service.go:112-123 | the length of that list is the number of the showtime's reservations |
| Reservations.GetReservationsByUserID | internal/service/reservation_service.go:133-139 | exactly the stored reservations of the user |
| Reservations.GetReservationByID | internal/service/reservation_service.go:140-149 | the stored reservation with that id; ErrNotFound exactly when none has it |
| Reservations.GetRemainingTickets | internal/service/reservation_service.go:109-131 | a result is always positive; the errors are ErrNotFound, exactly when the hall is missing, and ErrNoTicketsAvailable |
| Reservations.RemainingTicketsCount | internal/service/reservation_service.go:109-131 | with the hall present, the result is SeatCount minus the showtime's reservations, or ErrNoTicketsAvailable when that is <= 0 |
| Reservations.Reserve | internal/service/reservation_service.go:42-85 | an unknown showtime gives ErrShowtimeNotExist; success appends exactly the reservation `(showtime, seat, user)` and changes no table besides reservations and ShowtimeSeats |
| Reservations.ReserveSucceeded | internal/service/reservation_service.go:42-85 | a success implies: the showtime existed with tickets left; the user held none of its reservations; the pair was free; the pair's ShowtimeSeat, not locked before, is now locked, with every other record unchanged |
| Reservations.ReserveSucceedsWhen | internal/service/reservation_service.go:42-85 | those conditions suffice for success |
| Reservations.ReserveOutcome | internal/service/reservation_service.go:42-85 | in a valid store Reserve succeeds if and only if those conditions hold |
| Reservations.ReserveHallMissing | internal/service/reservation_service.go:53-56 | for a stored showtime whose hall is gone, Reserve fails with ErrNotFound from the ticket count, whatever the user and seat |
| Reservations.ReserveSoldOut | internal/service/reservation_service.go:53-56 | a sold-out showtime refuses every user on every seat with ErrNoTicketsAvailable; the capacity check runs before the user check |
| Reservations.ReserveAlreadyHeld | internal/service/reservation_service.go:58-67 | with tickets left, a user who holds any reservation for the showtime is refused with ErrAlreadyReserved, whatever the seat |
| Reservations.ReservePairTaken | internal/service/reservation_service.go:69-76 | past the user check, a (showtime, seat) pair that another reservation holds is refused with DuplicateKey by the unique index |
| Reservations.ReserveNoShowtimeSeat | internal/service/reservation_service.go:78-82 | past the insert, a pair with no ShowtimeSeat fails with the raw record-not-found error |
| Reservations.ReserveSeatLocked | internal/service/reservation_service.go:78-83 | past the insert, a pair whose ShowtimeSeat is already locked fails with ErrShowtimeSeatStatusNotChange |
| Reservations.CancelReservation | internal/service/reservation_service.go:87-107 | an unknown id gives ErrNotFound; success deletes exactly that reservation and changes no table besides reservations and ShowtimeSeats |
| Reservations.CancelSucceeded | internal/service/reservation_service.go:87-107 | a success implies that the reservation existed, and that its pair's ShowtimeSeat, not available before, is now available, with every other record unchanged |
| Reservations.CancelSucceedsWhen | internal/service/reservation_service.go:87-107 | conversely, a stored reservation whose pair's ShowtimeSeat exists and is not available is cancelled successfully |
| Reservations.ReserveKeepsValid | internal/service/reservation_service.go:70-83 | a successful Reserve keeps every table constraint |
| Reservations.CancelKeepsValid | internal/service/reservation_service.go:94-105 | a successful cancel keeps every table constraint |
| Consistency.EmptyIsConsistent | internal/model/model.go:21-81 | the empty store is valid and consistent |
| Consistency.LockedKeysCount | internal/model/model.go:75-76 | under the `(showtime, seat)` index, a showtime's locked records and their pairs are equally many |
| Consistency.HeldKeysCount | internal/model/model.go:39-40 | under the reservations' index, a showtime's reservations and their pairs are equally many |
| Consistency.LockedKeysAreHeld | internal/service/reservation_service.go:79-83 | when locked means reserved, every locked pair is a reserved pair |
| Consistency.HeldKeysAreLocked | internal/service/reservation_service.go:79-83 | when locked means reserved and every reservation has its record, every reserved pair is locked |
| Consistency.LockedCountIsReservationCount | internal/service/reservation_service.go:70-83 | in a consistent store, each showtime has as many locked ShowtimeSeats as reservations |
| Consistency.RemainingTicketsFromLocked | internal/service/reservation_service.go:109-131 | the remaining tickets are SeatCount minus the showtime's locked seats |
| Consistency.ReservedAfterBooking | internal/service/reservation_service.go:70-76 | after appending a reservation, a pair is reserved exactly when it was before or is the new one |
| Consistency.BookingKeepsLockedExactlyWhenReserved | internal/service/reservation_service.go:70-83 | inserting the reservation and locking its record keeps "locked exactly when reserved" |
| Consistency.BookingKeepsReservationSeats | internal/service/reservation_service.go:70-83 | booking keeps a ShowtimeSeat for every reservation, the new one included |
| Consistency.BookingKeepsAnchored | internal/service/reservation_service.go:70-83 | booking keeps every ShowtimeSeat anchored to an existing showtime and a seat of its hall |
| Consistency.BookingKeepsOnePerUser | internal/service/reservation_service.go:59-67 | after the user scan has passed, booking keeps at most one reservation per user and showtime |
| Consistency.ReserveKeepsConsistent | internal/service/reservation_service.go:42-85 | a successful Reserve keeps the store consistent |
| Consistency.ReservedAfterRelease | internal/service/reservation_service.go:94-96 | after deleting a reservation, a pair is reserved exactly when it was before and is not the deleted one |
| Consistency.ReleaseKeepsLockedExactlyWhenReserved | internal/service/reservation_service.go:94-105 | deleting the reservation and making its record available keeps "locked exactly when reserved" |
| Consistency.ReleaseKeepsReservationSeats | internal/service/reservation_service.go:94-105 | cancelling keeps every remaining reservation's record |
| Consistency.ReleaseKeepsAnchored | internal/service/reservation_service.go:94-105 | cancelling keeps every record anchored |
| Consistency.CancelKeepsConsistent | internal/service/reservation_service.go:87-107 | a successful cancel keeps the store consistent |
| Consistency.ReservedIsLocked | internal/service/reservation_service.go:70-83 | under the invariant, the ShowtimeSeat of a reserved pair is locked |
| Consistency.CancelSucceedsWhenConsistent | internal/service/reservation_service.go:87-107 | when locked means reserved and every reservation has its record, cancelling an existing reservation succeeds |
| Lifecycle.CreateShowtimeKeepsConsistent | internal/service/showtime_service.go:37-46 | creating a showtime keeps the store consistent |
| Lifecycle.NoSeatsForNextShowtime | internal/service/showtime_service.go:37-46 | no ShowtimeSeat refers to the id the next showtime will get |
| Lifecycle.NoReservationsForNextShowtime | internal/service/showtime_service.go:37-46 | no reservation refers to the id the next showtime will get |
| Lifecycle.InitShowtimeSeatsSeeds | internal/service/showtimeSeat_service.go:54-69 | the initializer only adds records: each is available, for the showtime, for a seat of its hall, with a pair not taken before |
| Lifecycle.SeedingKeepsLockedExactlyWhenReserved | internal/service/showtimeSeat_service.go:62-66 | adding available records keeps "locked exactly when reserved" |
| Lifecycle.SeedingKeepsAnchored | internal/service/showtimeSeat_service.go:55-66 | records for seats of the showtime's hall are anchored |
| Lifecycle.SeedingKeepsReservationSeats | internal/service/showtimeSeat_service.go:54-69 | adding records keeps every reservation's record |
| Lifecycle.InitShowtimeSeatsKeepsConsistent | internal/service/showtimeSeat_service.go:54-69 | initializing a stored showtime's records keeps the store consistent |
| Lifecycle.ReserveFailsOnFreshShowtime | internal/service/showtime_service.go:37-46 | as written, Reserve on a showtime just created always fails |
| Lifecycle.FreshShowtimeHasNoReservations | internal/service/showtime_service.go:37-46 | a showtime just created has no reservations |
| Lifecycle.ReserveOnFreshShowtimeNotFound | internal/service/reservation_service.go:79-82 | as written, when the hall exists and has seats, Reserve on a showtime just created fails at the ShowtimeSeat lookup with the unmapped not-found error |
| Lifecycle.CreateShowtimeWithSeats | internal/service/showtime_service.go:37-46 | corrected creation: the showtime, then its ShowtimeSeats; success inserts exactly that showtime |
| Lifecycle.CreateShowtimeWithSeatsSucceeds | internal/service/showtimeSeat_service.go:54-69 | from a valid, consistent store the corrected creation succeeds and keeps the store valid and consistent |
| Lifecycle.CreateShowtimeWithSeatsSeeds | internal/service/showtimeSeat_service.go:60-67 | after it, every seat of the hall has an available record for the new showtime |
| Lifecycle.ReserveAfterCreateShowtimeWithSeats | internal/service/reservation_service.go:42-85 | after the corrected creation, reserving any seat of the hall (with SeatCount > 0) succeeds |
| Lifecycle.UpdateHallKeepsConsistent | internal/service/hall_service.go:48-82 | a successful hall update keeps the store consistent |
| Lifecycle.NoShowtimeSeatsInUnusedHall | internal/service/hall_service.go:86-93 | when no showtime uses a hall, no ShowtimeSeat is for one of its seats |
| Lifecycle.HallRemovedKeepsSeatsInHalls | internal/model/model.go:62 | removing a hall together with its seats keeps every seat in a hall |
| Lifecycle.HallRemovedKeepsAnchored | internal/model/model.go:62-80 | removing an unused hall and its seats keeps every record anchored |
| Lifecycle.HallRemovedKeepsConsistent | internal/model/model.go:62-80 | such a removal keeps the store consistent |
| Lifecycle.DeleteHallRemoves | internal/service/hall_service.go:84-97 | a successful delete removes exactly the hall and its seats and cascades to no ShowtimeSeat |
| Lifecycle.DeleteHallKeepsConsistent | internal/service/hall_service.go:84-97 | a successful delete leaves the ShowtimeSeats as they were and keeps the store consistent |
| Lifecycle.DeleteHallSparesReservedSeats | internal/model/model.go:38-46 | in a consistent store a delete that passes the showtime guard removes no seat a reservation refers to, so the reservations' restricting foreign key to their seat never refuses it |
| Lifecycle.HallAddedKeepsSeatsInHalls | internal/service/hall_service.go:39-46 | adding a hall with seats only in it keeps every seat in a hall |
| Lifecycle.HallAddedKeepsAnchored | internal/service/hall_service.go:39-46 | adding a hall and seats keeps every record anchored |
| Lifecycle.HallAddedKeepsConsistent | internal/service/hall_service.go:39-46 | adding a hall and seats keeps the store consistent |
| Lifecycle.NoSeatsInNextHall | internal/service/hall_service.go:39-46 | no seat refers to the id the next hall will get |
| Lifecycle.CreateHallFromOneAdds | internal/service/hall_service.go:39-46 | the corrected creation adds the hall and only seats of that hall |
| Lifecycle.GridFromOneInHall | internal/service/seat_service.go:54-60 | every numbered seat of the 1-based grid has the hall's id |
| Lifecycle.CreateHallFromOneKeepsConsistent | internal/service/hall_service.go:39-46 | the corrected creation succeeds and keeps the store valid and consistent |
| Lifecycle.MovieOperationsKeepConsistent | internal/service/movie_service.go:41-100 | successful create, update and delete of a movie keep the store consistent |
| Booking.ReserveCountsOne | internal/service/reservation_service.go:70-76 | a successful Reserve adds one reservation to its showtime's count and leaves every other showtime's count unchanged |
| Booking.ReserveTakesOneTicket | internal/service/reservation_service.go:109-131 | after a successful Reserve the remaining tickets are one fewer, or ErrNoTicketsAvailable when none is left |
| Booking.ReserveAgainReachesUserCheck | internal/service/reservation_service.go:44-56 | after a successful Reserve the showtime lookup finds the same showtime, and the capacity check does not fail with ErrNotFound |
| Booking.SameUserRefused | internal/service/reservation_service.go:59-67 | after a successful Reserve the same user is refused for that showtime on any seat, as sold out or with ErrAlreadyReserved |
| Booking.SameSeatRefused | internal/model/model.go:39-40 | after a successful Reserve any user is refused the same pair: sold out, ErrAlreadyReserved or the unique index |
| Booking.ReserveThenCancel | internal/service/reservation_service.go:87-107 | cancelling the reservation just made, when the seat was available, restores every table except the reservations' id counter |
| Booking.ReserveAfterCounterMoved | internal/service/reservation_service.go:42-85 | when only the reservations' id counter has moved on, the same request succeeds again, with the same ShowtimeSeat locked and the same reservation stored under the next id |
| Booking.ReserveCancelReserve | internal/service/reservation_service.go:42-107 | Reserve, then Cancel, then the same Reserve succeeds: available, locked, available, locked again, with the reservation stored under the next id |
| Booking.RemainingTicketsSameRows | internal/service/reservation_service.go:109-131 | the ticket count depends only on the halls and the reservation rows, not on the id counter |
| Service.BuildSeatGrid | internal/service/seat_service.go:56-65 | the nested row/column loop builds exactly the grid |
| Service.BuildShowtimeSeats | internal/service/showtimeSeat_service.go:60-67 | the append loop builds exactly one available record per seat, in order |
| Service.ScanForShowtime | internal/service/reservation_service.go:63-67 | the scan finds a reservation for the showtime exactly when the user holds one |
| Service.Store.constructor | internal/model/model.go:21-81 | a new store is empty, valid and consistent |
| Service.Store.InitSeatsForHall | internal/service/seat_service.go:52-69 | the store becomes the pure result on success and stays unchanged on failure; the returned error is the pure one |
| Service.Store.InitShowtimeSeatsForShowtime | internal/service/showtimeSeat_service.go:54-69 | the same for the initializer; consistency is kept |
| Service.Store.UpdateShowtimeSeatStatus | internal/service/showtimeSeat_service.go:105-120 | the same for the status primitive; nothing is written when it fails |
| Service.Store.ToAvailable | internal/service/showtimeSeat_service.go:121-123 | the primitive with target available |
| Service.Store.ToLocked | internal/service/showtimeSeat_service.go:124-126 | the primitive with target locked |
| Service.Store.ToSold | internal/service/showtimeSeat_service.go:127-129 | the primitive with target sold |
| Service.Store.ReserveTx | internal/service/reservation_service.go:43-84 | the transaction body returns the pure error, and on success leaves the pure result |
| Service.Store.Reserve | internal/service/reservation_service.go:42-85 | commit on success, every table as before on any error; validity and consistency are kept |
| Service.Store.CancelReservationTx | internal/service/reservation_service.go:88-106 | the transaction body returns the pure error, and on success leaves the pure result |
| Service.Store.CancelReservation | internal/service/reservation_service.go:87-107 | commit on success, every table as before on any error; validity and consistency are kept |
| Service.Store.CreateShowtime | internal/service/showtime_service.go:37-46 | appends the showtime and returns its id; validity and consistency are kept |
| Service.Store.CreateHallTx | internal/service/hall_service.go:40-45 | the body inserts the hall, then its seats |
| Service.Store.CreateHall | internal/service/hall_service.go:39-46 | commit on success; when either step fails, no hall and no seat remains |
| Service.Store.UpdateHall | internal/service/hall_service.go:48-82 | the guards in the source's order, then the rewrite; unchanged on failure; consistency is kept |
| Service.Store.DeleteHallByID | internal/service/hall_service.go:84-97 | the guard, then the cascade; validity and consistency are kept |
| Service.Store.CreateMovie | internal/service/movie_service.go:41-46 | the insert under the title index; validity and consistency are kept |
| Service.Store.UpdateMovie | internal/service/movie_service.go:51-85 | the checks in the source's order, then the rewrite; unchanged on failure; consistency is kept |
| Service.Store.DeleteMovieByID | internal/service/movie_service.go:87-100 | the guard, then the delete; validity and consistency are kept |

## Left out

- HTTP handlers, routing, middleware, authentication, users, captcha, the cache, configuration and start-up are outside the service core. The user name index and the user foreign key of a reservation are not modelled.
- Concurrency: transactions run one at a time, and isolation levels and row locks are not modelled. Double booking is caught only by the unique index on reservations.
- Transactions that do not share the caller's: the seat builder and the ticket count each open a separate transaction instead of using the caller's. Both are modelled as steps of the caller's transaction on the same store.
- Halls.DeleteHallCascade: does not check the reservations' foreign key to their seat (internal/model/model.go:44, no ON DELETE action), which would refuse a delete that removes a reserved seat. Lifecycle.DeleteHallSparesReservedSeats proves that a consistent store never reaches that case; from an inconsistent store the model deletes anyway.
- Foreign-key checks on insert:
  - A showtime is stored even when its movie or hall does not exist.
  - A reservation is stored even when its seat does not exist.
  - Creating a showtime therefore never fails.
- Rolling back id sequences: ids do not return on rollback. In the model a failed transaction restores the whole state, including the next-id counters; only a deleted row's id is never reused.
- Repository quirks, modelled as the services intend instead:
  - The hall filter on seats is ignored by the repository (internal/repository/seat_repo.go:65); the model returns only the hall's seats.
  - The ShowtimeSeat update discards the updated record (internal/repository/showtimeSeat_repo.go:105); the model writes the new status.
- GORM's conventions are not modelled: zero-valued struct fields dropped from conditions and from `Updates`, and column size limits (varchar lengths).
- Store errors besides "record not found", duplicate key and check violation (connection failures and the like) are not modelled.
- Showtime update and delete: the handlers call them, but the service does not define them. Deleting a showtime or a single seat, and the cascade from either to its ShowtimeSeats, are therefore not modelled. The seat cascade is modelled as part of deleting a hall.
- The mismatched constructor call in internal/app/app.go:51 is wiring, not service logic.
- `StartAt` is an opaque instant, compared only for equality.
- Hall.SeatCount is independent of Rows*Cols, as in the source. The ticket count uses SeatCount only.
- The sold transition: `ToSold` is modelled, but no service calls it, and the consistency invariant does not cover sold seats.
- The services' other getters (`GetAllMovies`, `GetAllHalls`, `GetAllShowtimes`, `GetShowtimeSeatByID`, `GetShowtimeSeatsByShowtimeID`, `GetShowtimeSeatsByStatus`), and the single-row creators and deleters of seats and ShowtimeSeats, are not part of the modelled core.

## Findings

| source | as written | input that shows it | evidently intended | confidence | as-written member | corrected member |
|---|---|---|---|---|---|---|
| internal/service/seat_service.go:57-64 | the seat grid is numbered from 0, while internal/model/model.go:59-60 requires row > 0 and col > 0, so the batch always fails and CreateHall rolls back | CreateHall with a free name and Rows = 2, Cols = 3: the seat (0, 0) is refused | seats numbered 1..Rows × 1..Cols | not executed | Halls.CreateHallAlwaysFails | Halls.CreateHallFromOneSucceeds |
| internal/service/showtime_service.go:37-46 | CreateShowtime inserts the showtime only and never creates its ShowtimeSeats, so no seat of a new showtime can be reserved | any consistent store with a hall that has seats and SeatCount > 0: CreateShowtime, then Reserve on the new showtime, fails with "record not found" | CreateShowtime also runs InitShowtimeSeatsForShowtimeTx | not executed | Lifecycle.ReserveOnFreshShowtimeNotFound | Lifecycle.ReserveAfterCreateShowtimeWithSeats |
