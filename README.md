# Train seat booking server: a verified model

The server sells seats in one coach of 80 seats. Rows 1 to 11 hold seven seats each, and row 12 holds seats 78 to 80. A booking asks for 1 to 7 seats. The server chooses them in three steps:

1. a run of consecutive seat numbers in one row;
2. failing that, the first free seats of one row;
3. failing that, the lowest-numbered free seats anywhere.

It then marks the seats and appends a record to a bookings ledger, both in one transaction. A reset frees every seat, empties the ledger and books six fixed seed seats again.

The model is in three modules:

- `Seating` (`seating.dfy`): the records of the two tables and the coach's shape. It has the row of a seat number (`RowOf`) and the decimal text of the seed ids `INITIAL_<n>`.
- `Allocation` (`allocation.dfy`) covers `findBestSeats`, `findConsecutiveSeats` and `findNearbySeats`.
  - `findBestSeats` and `findConsecutiveSeats` are methods with their loops, each proved equal to a declarative reference. The run scan is proved against `RunOf`, grouping against `RowSeats`, and the whole allocation against `BestSeats`.
  - `findNearbySeats` has no loop in the source, only a sort and a slice, so it is the function `NearbySeats`.
  - Lemmas state what the reference guarantees: the refusals, the exact number of seats, distinctness, membership in the free list, and the priority order of the three strategies.
- `SeatStore` (`seat_map.dfy`) has the class `SeatMap`. It holds the seats table, the bookings table and the AUTOINCREMENT counter, with `Init`, `Book` and `Reset`.
  - The constructor, `Init`, `Book` and `Reset` keep `Valid()`: each seat has the right number and row, and carries a booking id exactly when it is booked. `Seed` and `MarkSeats` are steps inside them and may break it in between.
  - `Valid()` also requires the two tables to be `Consistent`: booking ids are unique, surrogate ids increase, every record's seats carry its id, and every booked seat is either a seed seat or listed by the record whose id it carries.

The clock is a parameter. `Book` takes the millisecond reading `now`, from which the id `BOOK_<now>` is built, and the timestamp string `time`. The seats table is a sequence ordered by seat number and is empty before initialisation.

Seed seats are booked without any ledger record. So the booked seats are the seats listed by the ledger together with the seed seats, not the ledger's seats alone; `Consistent` states the invariant in that form.

## Model

| member | source | states |
|---|---|---|
| Seating.RowOfPartition | server/index.js:55-67 | seats 7r-6..7r lie in row r for r = 1..11, seats 78..80 in row 12, every seat in a row 1..12 |
| Seating.RowOfSeatInRow | server/index.js:56-60 | the seat-in-row'th seat of row `row`, numbered by the running counter, lies in `row` |
| Seating.SeedIdInjective | server/index.js:73-76 | distinct seed seats receive distinct `INITIAL_<n>` booking ids |
| Allocation.SortByNumber | server/index.js:136 | the sort by seat number returns a permutation of its input, ordered by seat number |
| Allocation.SortKeepsSorted | server/index.js:136 | sorting a list already ordered by seat number leaves it unchanged |
| Allocation.RowSeats | server/index.js:101-107 | a row's list holds exactly the seats of that row, no more than the input |
| Allocation.RowSeatsAscending | server/index.js:101-107 | grouping keeps the ascending seat order within each row |
| Allocation.GroupByRow | server/index.js:101-107 | the dictionary's keys are exactly the rows with a free seat, and each row maps to its seats in input order |
| Allocation.FirstRunFrom | server/index.js:138-152 | the position found starts a run of `count` consecutive numbers and no earlier position does; None means no position does |
| Allocation.RunOf | server/index.js:135-155 | the result is empty or has exactly `count` seats, each numbered one more than the previous, all from the input; it has `count` seats exactly when some run exists, and then it is the run at the lowest starting position |
| Allocation.ScanForRun | server/index.js:138-154 | the nested loops with early break return the first run of `count`, or the empty list |
| Allocation.FindConsecutiveSeats | server/index.js:135-155 | sorts, then returns the first run of `count` consecutive numbers of the sorted list |
| Allocation.NearbySeats | server/index.js:157-160 | returns min(count, length) seats, in seat order, drawn from the input |
| Allocation.NearbyAreLowest | server/index.js:157-160 | no seat left out has a lower number than a seat returned |
| Allocation.ScanRowsForRun | server/index.js:110-119 | visiting rows in ascending order, returns the run of the lowest row that has one, or nothing when no row has one |
| Allocation.ScanRowsForRoom | server/index.js:122-127 | visiting rows in ascending order, returns the first `n` seats of the lowest row with `n` free seats, or nothing |
| Allocation.FindBestSeats | server/index.js:86-133 | the allocation's result equals the three-strategy reference `BestSeats` for every ascending free list |
| Allocation.BestSeatsShape | server/index.js:87-98 | fails with TooManySeats exactly when n > 7 and otherwise with NotEnoughSeats exactly when fewer than n are free; on success returns exactly n distinct free seats in ascending order |
| Allocation.RunIsBlock | server/index.js:113-117 | the run found in a row is a block of n consecutive free seats of that row |
| Allocation.BlockIsRun | server/index.js:110-119 | a block of n consecutive free seats in a row makes that row qualify for the first strategy, with its run starting no higher than the block |
| Allocation.BestSeatsPrefersBlock | server/index.js:109-119 | if any row has n consecutive free seats, the group gets such a block, in the lowest such row, starting at that row's lowest such seat |
| Allocation.BestSeatsPrefersOneRow | server/index.js:121-127 | with no consecutive block but a row with n free seats, the group gets the n lowest-numbered free seats of the lowest such row |
| Allocation.BestSeatsAcrossRows | server/index.js:129-131 | with no row holding n free seats, the group gets the n lowest-numbered free seats, spread over more than one row |
| SeatStore.FreeSeats | server/index.js:91 | the free-seat query returns exactly the unbooked seats of the table, and no more seats than the table holds |
| SeatStore.FreeSeatsAscending | server/index.js:91 | the free seats of a table numbered by position come out in strictly ascending seat order |
| SeatStore.SeatMap.CreateSeats | server/index.js:53-67 | the nested insertion loops produce exactly seats 1..80, unbooked, seat n in row `RowOf(n)` |
| SeatStore.SeededLayoutState | server/index.js:47-79 | after initialisation exactly seats 5, 12, 23, 45, 67 and 78 are booked, each under `INITIAL_<n>` and with no booking time |
| SeatStore.SeededLayoutConsistent | server/index.js:47-79 | the initial seats are consistent with an empty ledger |
| SeatStore.SeatMap.constructor | server/index.js:16 | a new database has no seats, no bookings, and the counter at 1 |
| SeatStore.SeatMap.Init | server/index.js:19-83 | on an empty table builds and seeds the layout; on a populated table changes nothing; keeps `Valid()` |
| SeatStore.SeatMap.Seed | server/index.js:72-77 | books each seed seat under `INITIAL_<n>`, leaving its booking time as it was |
| SeatStore.ClearedIsLayout | server/index.js:236 | clearing every booking of a valid table gives back the freshly inserted layout |
| SeatStore.ResetRestoresInitialSeats | server/index.js:234-249 | after a reset the seats are exactly as after the first initialisation |
| SeatStore.SeatMap.Reset | server/index.js:234-249 | clears every seat, empties the ledger, reseeds, keeps the counter and keeps `Valid()` |
| SeatStore.SelectionIsFree | server/index.js:182-188 | the seat numbers chosen are exactly n, strictly increasing, and all name free seats of the table |
| SeatStore.BookingMarksExactlySelected | server/index.js:195-201 | a booking books every chosen seat, each free before, under the new id and time, and leaves every other seat as it was |
| SeatStore.MarkedTakesListed | server/index.js:195-201 | after marking, the free seats are exactly the previously free seats that were not chosen |
| SeatStore.SeatMap.MarkSeats | server/index.js:195-201 | the per-seat UPDATE loop yields the table with exactly the listed seats marked |
| SeatStore.BookPreservesConsistency | server/index.js:187-218 | appending the new record with the next surrogate id and marking its seats keeps the table well formed and both tables consistent |
| SeatStore.NoDoubleAllocation | server/index.js:195-205 | in a consistent state no seat is listed by two ledger records, and every listed seat is booked |
| SeatStore.ValidCount | server/index.js:178 | the count check accepts exactly a present count from 1 to 7 |
| SeatStore.BookingIdAt | server/index.js:187 | the booking id is `BOOK_` followed by the decimal clock reading, which reads back as that reading |
| SeatStore.BookingIdInjective | server/index.js:187 | two bookings get the same id exactly when they are made at the same clock reading |
| SeatStore.BookingIdIsNoSeedId | server/index.js:187 | a booking id never equals a seed seat's `INITIAL_<n>` id |
| SeatStore.SeatMap.Book | server/index.js:175-221 | rejects a missing, zero, below-1 or above-7 count and every allocation failure with nothing changed; a duplicate booking id rolls back with nothing changed; a valid count whose allocation succeeds under an unused id always succeeds, marking the chosen seats and appending one record `(nextId, BOOK_<now>, n, numbers, time)`, where numbers is `Numbers(selection)`, the chosen seat numbers in selection order; an `Unavailable` failure carries exactly the allocation's error |

## Left out

- HTTP routing, CORS, body parsing, static files and the listener: plumbing around the handlers. Only their validation and state effects are modelled.
- The sqlite3 driver, its callbacks and its I/O errors. The tables are in-memory state. The only storage failure modelled is the UNIQUE violation on `booking_id`, and a failing `SELECT` is not modelled.
- The 100 ms `setTimeout` before seeding, in initialisation and in reset: seeding is modelled as an immediate step at the end of both. A booking that lands inside that window is therefore not modelled.
- `Date.now()` and `new Date().toISOString()`: the clock reading and the timestamp text are parameters of `Book`.
- `JSON.stringify` of the seat numbers: the record stores the sequence itself.
- The booking history listing, ordered by `created_at`: a read-only query.
- The JSON response bodies and status codes: `Book` returns a `Confirmation` or a `BookError` instead.
- Concurrent requests: each request is modelled as one atomic step.
- Non-integer `seats_count` values (fractions, numeric strings): the count is an optional integer.
- The client application: presentation only.
- Allocation.FindBestSeats: requires an ascending free list and a count of at least 1. Its only caller passes the result of an `ORDER BY seat_number` query on a UNIQUE column and a count it has already checked to be 1 to 7.
- Allocation.FindConsecutiveSeats: sorts in place in the source, and the array it sorts is the row's own list, which the second strategy reads again. The model returns the sorted list as a value. This is equivalent because every row list is already ascending, so the sort leaves it unchanged (`SortKeepsSorted`, `RowSeatsAscending`).
- `for...in` over the row dictionary visits rows in ascending numeric order, as JavaScript does for integer keys. The model visits the least pending row at each step.
