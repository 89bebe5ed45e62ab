/**
 * The two tables of the booking server and the three operations that change
 * them: initialisation of the seats table, the booking transaction of
 * POST /api/book and the reset of POST /api/reset.
 */
module SeatStore {
  import opened Seating
  import opened Allocation

  datatype BookError = InvalidCount | Unavailable(reason: AllocError) | StorageFailed

  /** The body of a successful booking response. */
  datatype Confirmation = Confirmation(bookingId: string, seatNumbers: seq<int>, seatsCount: int)

  // ---------------------------------------------------------------------------
  // The seats table, as a sequence ordered by seat number.

  /** The 80 unbooked seats that initialisation inserts. */
  function Layout(): (t: seq<Seat>)
    ensures |t| == Capacity
  {
    seq(Capacity, i requires 0 <= i < Capacity => LayoutSeat(i + 1))
  }

  /** Seat i holds number i+1 in its row, and carries a booking id exactly when it is booked. */
  predicate SeatShape(t: seq<Seat>, i: int)
    requires 0 <= i < |t|
  {
    t[i].number == i + 1 && t[i].row == RowOf(i + 1) &&
    (t[i].booked <==> t[i].bookingId.Some?) &&
    (t[i].bookedAt.Some? ==> t[i].booked)
  }

  predicate WellFormed(t: seq<Seat>)
  {
    (|t| == 0 || |t| == Capacity) && forall i :: 0 <= i < |t| ==> SeatShape(t, i)
  }

  /** The unbooked seats in seat-number order, as the allocation reads them. */
  function FreeSeats(t: seq<Seat>): (free: seq<Seat>)
    ensures |free| <= |t|
    ensures forall x :: x in free <==> x in t && !x.booked
  {
    if t == [] then []
    else
      var last := t[|t| - 1];
      assert t == t[..|t| - 1] + [last];
      FreeSeats(t[..|t| - 1]) + (if last.booked then [] else [last])
  }

  /** The seat numbers of a selection, in selection order. */
  function Numbers(s: seq<Seat>): (ns: seq<int>)
    ensures |ns| == |s| && forall k :: 0 <= k < |s| ==> ns[k] == s[k].number
  {
    seq(|s|, k requires 0 <= k < |s| => s[k].number)
  }

  /** The UPDATE of the booking transaction, applied to every seat whose number is listed. */
  function Marked(t: seq<Seat>, nums: seq<int>, id: string, time: string): (marked: seq<Seat>)
    ensures |marked| == |t|
  {
    seq(|t|, i requires 0 <= i < |t| =>
      if t[i].number in nums then t[i].(booked := true, bookingId := Some(id), bookedAt := Some(time)) else t[i])
  }

  /** The seeding UPDATEs, applied to every seat whose number is listed; booked_at is left as it was. */
  function Seeded(t: seq<Seat>, nums: seq<nat>): (seeded: seq<Seat>)
    ensures |seeded| == |t|
  {
    seq(|t|, i requires 0 <= i < |t| =>
      if t[i].number in nums then t[i].(booked := true, bookingId := Some(SeedId(t[i].number))) else t[i])
  }

  /** Every seat unbooked, with its booking id and booking time cleared. */
  function Cleared(t: seq<Seat>): (cleared: seq<Seat>)
    ensures |cleared| == |t|
  {
    seq(|t|, i requires 0 <= i < |t| => t[i].(booked := false, bookingId := None, bookedAt := None))
  }

  // ---------------------------------------------------------------------------
  // The bookings table.

  /** The booking id `BOOK_<milliseconds>` generated at clock reading `now`. */
  function BookingIdAt(now: nat): (id: string)
    ensures |id| > 5 && id[..5] == "BOOK_" && DecimalValue(id[5..]) == now
  {
    DecimalRoundTrip(now);
    assert ("BOOK_" + Decimal(now))[5..] == Decimal(now);
    "BOOK_" + Decimal(now)
  }

  /** Bookings made at different clock readings get different ids; two in the same millisecond collide. */
  lemma BookingIdInjective(a: nat, b: nat)
    ensures BookingIdAt(a) == BookingIdAt(b) <==> a == b
  {
  }

  /** A booking id never equals the id of a seeded seat. */
  lemma BookingIdIsNoSeedId(now: nat, n: nat)
    ensures BookingIdAt(now) != SeedId(n)
  {
    assert BookingIdAt(now)[0] == 'B' && SeedId(n)[0] == 'I';
  }

  /** INSERT fails on the UNIQUE booking_id column exactly when the id is already taken. */
  predicate IdTaken(ledger: seq<Booking>, id: string)
  {
    exists k :: 0 <= k < |ledger| && ledger[k].bookingId == id
  }

  predicate StrictlyIncreasing(ns: seq<int>)
  {
    forall j, k :: 0 <= j < k < |ns| ==> ns[j] < ns[k]
  }

  /** A ledger record agrees with the seats table and with the AUTOINCREMENT counter. */
  predicate RecordHolds(t: seq<Seat>, b: Booking, nextId: nat)
  {
    1 <= b.id < nextId &&
    "BOOK_" <= b.bookingId &&
    b.seatsCount == |b.seatNumbers| && 1 <= b.seatsCount <= MaxRequest &&
    StrictlyIncreasing(b.seatNumbers) &&
    forall n :: n in b.seatNumbers ==>
      1 <= n <= |t| && t[n - 1].bookingId == Some(b.bookingId) && t[n - 1].bookedAt == Some(b.createdAt)
  }

  /** Seat i is free, or one of the seeded seats, or listed by the ledger record whose id it carries. */
  ghost predicate SeatAccounted(t: seq<Seat>, ledger: seq<Booking>, i: int)
    requires 0 <= i < |t|
  {
    !t[i].booked ||
    (i + 1 in SeedSeats && t[i].bookingId == Some(SeedId(i + 1)) && t[i].bookedAt == None) ||
    exists k :: 0 <= k < |ledger| && i + 1 in ledger[k].seatNumbers && t[i].bookingId == Some(ledger[k].bookingId)
  }

  /**
   * The two tables agree: booking ids are unique, surrogate ids increase and stay
   * below the counter, every record's seats carry its id, and every booked seat
   * is seeded or belongs to a record.
   */
  ghost predicate Consistent(t: seq<Seat>, ledger: seq<Booking>, nextId: nat)
  {
    (forall j, k :: 0 <= j < k < |ledger| ==>
      ledger[j].bookingId != ledger[k].bookingId && ledger[j].id < ledger[k].id) &&
    (forall k :: 0 <= k < |ledger| ==> RecordHolds(t, ledger[k], nextId)) &&
    (forall i :: 0 <= i < |t| ==> SeatAccounted(t, ledger, i))
  }

  // ---------------------------------------------------------------------------
  // Properties of the tables.

  /** Seats numbered by position come out of the free-seat query in ascending order. */
  lemma {:induction false} FreeSeatsAscending(t: seq<Seat>)
    requires forall i :: 0 <= i < |t| ==> t[i].number == i + 1
    ensures Ascending(FreeSeats(t))
  {
    if t != [] {
      var init := t[..|t| - 1];
      FreeSeatsAscending(init);
      forall x | x in FreeSeats(init)
        ensures x.number < t[|t| - 1].number
      {
        var i :| 0 <= i < |init| && init[i] == x;
      }
    }
  }

  /** The seeded layout: exactly the six seed seats are booked, each under its INITIAL_ id and without a time. */
  lemma SeededLayoutState()
    ensures var t := Seeded(Layout(), SeedSeats);
      WellFormed(t) && |t| == Capacity &&
      forall i :: 0 <= i < |t| ==>
        (t[i].booked <==> i + 1 in SeedSeats) &&
        (t[i].booked ==> t[i].bookingId == Some(SeedId(i + 1))) &&
        t[i].bookedAt == None
  {
    var t := Seeded(Layout(), SeedSeats);
    forall i | 0 <= i < |t|
      ensures SeatShape(t, i)
    {
      assert Layout()[i] == LayoutSeat(i + 1);
    }
  }

  /** The seeded layout is consistent with an empty ledger, whatever the counter. */
  lemma SeededLayoutConsistent(nextId: nat)
    ensures Consistent(Seeded(Layout(), SeedSeats), [], nextId)
  {
    SeededLayoutState();
  }

  /** Clearing every booking of a well-formed table gives back the layout that initialisation inserts. */
  lemma ClearedIsLayout(t: seq<Seat>)
    requires WellFormed(t) && |t| == Capacity
    ensures Cleared(t) == Layout()
  {
    forall i | 0 <= i < Capacity
      ensures Cleared(t)[i] == Layout()[i]
    {
      assert SeatShape(t, i);
    }
  }

  /** After a reset the seats are exactly as after the first initialisation. */
  lemma ResetRestoresInitialSeats(t: seq<Seat>)
    requires WellFormed(t) && |t| == Capacity
    ensures Seeded(Cleared(t), SeedSeats) == Seeded(Layout(), SeedSeats)
  {
    ClearedIsLayout(t);
  }

  /** No seat number is listed by two ledger records, and every listed seat is booked. */
  lemma NoDoubleAllocation(t: seq<Seat>, ledger: seq<Booking>, nextId: nat, j: int, k: int, n: int)
    requires WellFormed(t) && Consistent(t, ledger, nextId)
    requires 0 <= j < |ledger| && 0 <= k < |ledger| && n in ledger[j].seatNumbers
    ensures 1 <= n <= |t| && t[n - 1].booked
    ensures n in ledger[k].seatNumbers ==> j == k
  {
    assert RecordHolds(t, ledger[j], nextId);
    assert SeatShape(t, n - 1);
    if n in ledger[k].seatNumbers {
      assert RecordHolds(t, ledger[k], nextId);
    }
  }

  /** The seats the allocation picks are free seats of the table, listed in increasing order. */
  lemma SelectionIsFree(t: seq<Seat>, c: int)
    requires WellFormed(t) && 1 <= c
    requires BestSeats(FreeSeats(t), c).Success?
    ensures var nums := Numbers(BestSeats(FreeSeats(t), c).value);
      |nums| == c && c <= MaxRequest && StrictlyIncreasing(nums) &&
      forall n :: n in nums ==> 1 <= n <= |t| && !t[n - 1].booked
  {
    var free := FreeSeats(t);
    forall i | 0 <= i < |t|
      ensures t[i].number == i + 1
    {
      assert SeatShape(t, i);
    }
    FreeSeatsAscending(t);
    BestSeatsShape(free, c);
    FreeSelection(t, BestSeats(free, c).value);
  }

  lemma FreeSelection(t: seq<Seat>, v: seq<Seat>)
    requires WellFormed(t) && Ascending(v)
    requires forall x :: x in v ==> x in FreeSeats(t)
    ensures var nums := Numbers(v);
      StrictlyIncreasing(nums) && forall n :: n in nums ==> 1 <= n <= |t| && !t[n - 1].booked
  {
    var nums := Numbers(v);
    forall n | n in nums
      ensures 1 <= n <= |t| && !t[n - 1].booked
    {
      var k :| 0 <= k < |nums| && nums[k] == n;
      assert v[k] in v;
      var i :| 0 <= i < |t| && t[i] == v[k];
      assert SeatShape(t, i);
    }
  }

  /** Marking seats changes exactly the listed seats: the free seats afterwards are the free seats not listed. */
  lemma MarkedTakesListed(t: seq<Seat>, nums: seq<int>, id: string, time: string)
    requires WellFormed(t)
    ensures forall x :: x in FreeSeats(Marked(t, nums, id, time)) <==> x in FreeSeats(t) && x.number !in nums
  {
    var m := Marked(t, nums, id, time);
    forall x
      ensures x in m && !x.booked <==> x in t && !x.booked && x.number !in nums
    {
      if x in m && !x.booked {
        var i :| 0 <= i < |m| && m[i] == x;
        assert x == t[i];
      }
      if x in t && !x.booked && x.number !in nums {
        var i :| 0 <= i < |t| && t[i] == x;
        assert m[i] == x;
      }
    }
  }

  /**
   * A successful booking books exactly the `c` seats the allocation chose, all
   * of them free before, under the new id and time, and changes no other seat.
   */
  lemma BookingMarksExactlySelected(t: seq<Seat>, c: int, id: string, time: string)
    requires WellFormed(t) && 1 <= c && BestSeats(FreeSeats(t), c).Success?
    ensures var nums := Numbers(BestSeats(FreeSeats(t), c).value);
      var t' := Marked(t, nums, id, time);
      |nums| == c && |t'| == |t| &&
      (forall n :: n in nums ==>
        1 <= n <= |t| && !t[n - 1].booked &&
        t'[n - 1] == t[n - 1].(booked := true, bookingId := Some(id), bookedAt := Some(time))) &&
      (forall i :: 0 <= i < |t| && i + 1 !in nums ==> t'[i] == t[i])
  {
    SelectionIsFree(t, c);
    var nums := Numbers(BestSeats(FreeSeats(t), c).value);
    forall i | 0 <= i < |t|
      ensures t[i].number == i + 1
    {
      assert SeatShape(t, i);
    }
  }

  /** A successful booking keeps the table well formed and the ledger consistent with it. */
  lemma BookPreservesConsistency(t: seq<Seat>, ledger: seq<Booking>, nextId: nat, c: int, now: nat, time: string)
    requires WellFormed(t) && Consistent(t, ledger, nextId) && nextId >= 1
    requires 1 <= c && BestSeats(FreeSeats(t), c).Success?
    requires !IdTaken(ledger, BookingIdAt(now))
    ensures var nums := Numbers(BestSeats(FreeSeats(t), c).value);
      var t' := Marked(t, nums, BookingIdAt(now), time);
      WellFormed(t') && Consistent(t', ledger + [Booking(nextId, BookingIdAt(now), c, nums, time)], nextId + 1)
  {
    var nums := Numbers(BestSeats(FreeSeats(t), c).value);
    var id := BookingIdAt(now);
    var t' := Marked(t, nums, id, time);
    var b := Booking(nextId, id, c, nums, time);
    var ledger' := ledger + [b];
    SelectionIsFree(t, c);
    forall i | 0 <= i < |t'|
      ensures SeatShape(t', i)
    {
      assert SeatShape(t, i);
    }
    forall k | 0 <= k < |ledger'|
      ensures RecordHolds(t', ledger'[k], nextId + 1)
    {
      if k < |ledger| {
        var r := ledger[k];
        assert RecordHolds(t, r, nextId);
        forall n | n in r.seatNumbers
          ensures t'[n - 1] == t[n - 1]
        {
          assert SeatShape(t, n - 1);
        }
      } else {
        assert ledger'[k] == b;
        assert id[..5] == "BOOK_";
        forall n | n in nums
          ensures t'[n - 1].bookingId == Some(id) && t'[n - 1].bookedAt == Some(time)
        {
          assert SeatShape(t, n - 1);
        }
      }
    }
    forall j, k | 0 <= j < k < |ledger'|
      ensures ledger'[j].bookingId != ledger'[k].bookingId && ledger'[j].id < ledger'[k].id
    {
      if k == |ledger| {
        assert RecordHolds(t, ledger[j], nextId);
      }
    }
    forall i | 0 <= i < |t'|
      ensures SeatAccounted(t', ledger', i)
    {
      assert SeatShape(t, i);
      if i + 1 in nums {
        assert ledger'[|ledger|] == b;
      } else {
        assert t'[i] == t[i];
        assert SeatAccounted(t, ledger, i);
        if t[i].booked && !(i + 1 in SeedSeats && t[i].bookingId == Some(SeedId(i + 1)) && t[i].bookedAt == None) {
          var k :| 0 <= k < |ledger| && i + 1 in ledger[k].seatNumbers && t[i].bookingId == Some(ledger[k].bookingId);
          assert ledger'[k] == ledger[k];
        }
      }
    }
  }

  /** A table with no seats has no bookings either: every record lists at least one seat. */
  lemma EmptyTableEmptyLedger(ledger: seq<Booking>, nextId: nat)
    requires Consistent([], ledger, nextId)
    ensures ledger == []
  {
    if ledger != [] {
      NoRecordOnEmptyTable(ledger[0], nextId);
    }
  }

  lemma NoRecordOnEmptyTable(b: Booking, nextId: nat)
    ensures !RecordHolds([], b, nextId)
  {
    assert |b.seatNumbers| == 0 || b.seatNumbers[0] in b.seatNumbers;
  }

  /** One more seeding UPDATE, on the seat with number `x` if there is one. */
  lemma SeededStep(t: seq<Seat>, nums: seq<nat>, x: nat)
    requires forall i :: 0 <= i < |t| ==> t[i].number == i + 1
    ensures 1 <= x <= |t| ==>
      Seeded(t, nums + [x]) == Seeded(t, nums)[x - 1 := Seeded(t, nums)[x - 1].(booked := true, bookingId := Some(SeedId(x)))]
    ensures !(1 <= x <= |t|) ==> Seeded(t, nums + [x]) == Seeded(t, nums)
  {
    if 1 <= x <= |t| {
      assert t[x - 1].number == x;
    }
  }

  /** One more booking UPDATE, on the seat with number `x` if there is one. */
  lemma MarkedStep(t: seq<Seat>, nums: seq<int>, x: int, id: string, time: string)
    requires forall i :: 0 <= i < |t| ==> t[i].number == i + 1
    ensures 1 <= x <= |t| ==>
      Marked(t, nums + [x], id, time) ==
      Marked(t, nums, id, time)[x - 1 := Marked(t, nums, id, time)[x - 1].(booked := true, bookingId := Some(id), bookedAt := Some(time))]
    ensures !(1 <= x <= |t|) ==> Marked(t, nums + [x], id, time) == Marked(t, nums, id, time)
  {
    if 1 <= x <= |t| {
      assert t[x - 1].number == x;
    }
  }

  /** What POST /api/book accepts as `seats_count`. */
  function ValidCount(count: Option<int>): (ok: bool)
    ensures ok <==> count.Some? && 1 <= count.value <= MaxRequest
  {
    !(count.None? || count.value == 0 || count.value < 1 || count.value > MaxRequest)
  }

  // ---------------------------------------------------------------------------
  // The database.

  class SeatMap {
    /** The seats table, ordered by seat number; empty before initialisation. */
    var seats: seq<Seat>
    /** The bookings table, in insertion order. */
    var bookings: seq<Booking>
    /** The next AUTOINCREMENT id; DELETE does not rewind it. */
    var nextId: nat

    ghost predicate Valid()
      reads this
    {
      WellFormed(seats) && Consistent(seats, bookings, nextId) && nextId >= 1
    }

    /** A new database file: both tables empty. */
    constructor()
      ensures Valid()
      ensures seats == [] && bookings == [] && nextId == 1
    {
      seats := [];
      bookings := [];
      nextId := 1;
    }

    /** initializeDatabase: on an empty seats table, insert the 80 seats row by row, then book the seed seats. */
    method Init()
      modifies this
      requires Valid()
      ensures Valid()
      ensures old(seats) == [] ==> seats == Seeded(Layout(), SeedSeats)
      ensures old(seats) != [] ==> seats == old(seats)
      ensures bookings == old(bookings) && nextId == old(nextId)
    {
      if |seats| == 0 {
        EmptyTableEmptyLedger(bookings, nextId);
        seats := CreateSeats();
        Seed();
        SeededLayoutState();
        SeededLayoutConsistent(nextId);
      }
    }

    /** The insertion loops of initializeDatabase: rows 1 to 11 of seven seats, then row 12 of three. */
    static method CreateSeats() returns (table: seq<Seat>)
      ensures table == Layout()
    {
      table := [];
      var seatNumber := 1;
      for row := 1 to FullRows + 1
        invariant seatNumber == RowWidth * (row - 1) + 1
        invariant table == Layout()[..seatNumber - 1]
      {
        for seatInRow := 1 to RowWidth + 1
          invariant seatNumber == RowWidth * (row - 1) + seatInRow
          invariant table == Layout()[..seatNumber - 1]
        {
          RowOfSeatInRow(row, seatInRow);
          assert Layout()[..seatNumber] == Layout()[..seatNumber - 1] + [Layout()[seatNumber - 1]];
          table := table + [Seat(seatNumber, row, false, None, None)];
          seatNumber := seatNumber + 1;
        }
      }
      for seatInRow := 1 to LastRowWidth + 1
        invariant seatNumber == FullRows * RowWidth + seatInRow
        invariant table == Layout()[..seatNumber - 1]
      {
        assert Layout()[..seatNumber] == Layout()[..seatNumber - 1] + [Layout()[seatNumber - 1]];
        table := table + [Seat(seatNumber, LastRow, false, None, None)];
        seatNumber := seatNumber + 1;
      }
    }

    /** The seeding UPDATEs: book each seed seat under INITIAL_<number>. */
    method Seed()
      modifies this
      requires forall i :: 0 <= i < |seats| ==> seats[i].number == i + 1
      ensures seats == Seeded(old(seats), SeedSeats)
      ensures bookings == old(bookings) && nextId == old(nextId)
    {
      ghost var start := seats;
      for k := 0 to |SeedSeats|
        invariant seats == Seeded(start, SeedSeats[..k])
        invariant bookings == old(bookings) && nextId == old(nextId)
      {
        var seatNum := SeedSeats[k];
        SeededStep(start, SeedSeats[..k], seatNum);
        assert SeedSeats[..k + 1] == SeedSeats[..k] + [seatNum];
        if 1 <= seatNum <= |seats| {
          seats := seats[seatNum - 1 := seats[seatNum - 1].(booked := true, bookingId := Some(SeedId(seatNum)))];
        }
      }
    }

    /** POST /api/reset: free every seat, empty the bookings table, book the seed seats again. */
    method Reset()
      modifies this
      requires Valid()
      ensures Valid()
      ensures seats == Seeded(Cleared(old(seats)), SeedSeats)
      ensures bookings == [] && nextId == old(nextId)
    {
      seats := Cleared(seats);
      bookings := [];
      forall i | 0 <= i < |seats|
        ensures seats[i].number == i + 1
      {
        assert SeatShape(old(seats), i);
      }
      Seed();
      if |seats| == Capacity {
        ResetRestoresInitialSeats(old(seats));
        SeededLayoutState();
        SeededLayoutConsistent(nextId);
      }
    }

    /**
     * POST /api/book: validate the count, allocate, then in one transaction mark
     * the seats and insert the booking record; a failed insert rolls the marks back.
     */
    method Book(count: Option<int>, now: nat, time: string) returns (outcome: Result<Confirmation, BookError>)
      modifies this
      requires Valid()
      ensures Valid()
      ensures outcome == Failure(InvalidCount) <==> !ValidCount(count)
      ensures outcome.Failure? ==> seats == old(seats) && bookings == old(bookings) && nextId == old(nextId)
      ensures ValidCount(count) && BestSeats(FreeSeats(old(seats)), count.value).Failure? ==>
        outcome == Failure(Unavailable(BestSeats(FreeSeats(old(seats)), count.value).error))
      ensures ValidCount(count) && BestSeats(FreeSeats(old(seats)), count.value).Success? ==>
        (outcome == Failure(StorageFailed) <==> IdTaken(old(bookings), BookingIdAt(now)))
      ensures outcome.Success? ==>
        ValidCount(count) && BestSeats(FreeSeats(old(seats)), count.value).Success? &&
        var nums := Numbers(BestSeats(FreeSeats(old(seats)), count.value).value);
        outcome.value == Confirmation(BookingIdAt(now), nums, count.value) &&
        seats == Marked(old(seats), nums, BookingIdAt(now), time) &&
        bookings == old(bookings) + [Booking(old(nextId), BookingIdAt(now), count.value, nums, time)] &&
        nextId == old(nextId) + 1
      ensures (ValidCount(count) && BestSeats(FreeSeats(old(seats)), count.value).Success? &&
               !IdTaken(old(bookings), BookingIdAt(now))) ==> outcome.Success?
      ensures outcome.Failure? && outcome.error.Unavailable? ==>
        ValidCount(count) && BestSeats(FreeSeats(old(seats)), count.value) == Failure(outcome.error.reason)
    {
      if !ValidCount(count) {
        return Failure(InvalidCount);
      }
      var requested := count.value;
      var available := FreeSeats(seats);
      forall i | 0 <= i < |seats|
        ensures seats[i].number == i + 1
      {
        assert SeatShape(seats, i);
      }
      FreeSeatsAscending(seats);
      var selection := FindBestSeats(available, requested);
      if selection.Failure? {
        return Failure(Unavailable(selection.error));
      }
      var selected := selection.value;
      var id := BookingIdAt(now);
      var seatNumbers := Numbers(selected);

      // BEGIN TRANSACTION
      var snapshot := seats;
      MarkSeats(selected, id, time);
      if IdTaken(bookings, id) {
        // ROLLBACK
        seats := snapshot;
        return Failure(StorageFailed);
      }
      BookPreservesConsistency(snapshot, bookings, nextId, requested, now, time);
      bookings := bookings + [Booking(nextId, id, requested, seatNumbers, time)];
      nextId := nextId + 1;
      return Success(Confirmation(id, seatNumbers, requested));
    }

    /** The prepared UPDATE run once per selected seat, inside the booking transaction. */
    method MarkSeats(selected: seq<Seat>, id: string, time: string)
      modifies this
      requires forall i :: 0 <= i < |seats| ==> seats[i].number == i + 1
      ensures seats == Marked(old(seats), Numbers(selected), id, time)
      ensures bookings == old(bookings) && nextId == old(nextId)
    {
      ghost var start := seats;
      ghost var seatNumbers := Numbers(selected);
      for k := 0 to |selected|
        invariant seats == Marked(start, seatNumbers[..k], id, time)
        invariant bookings == old(bookings) && nextId == old(nextId)
      {
        var n := selected[k].number;
        MarkedStep(start, seatNumbers[..k], n, id, time);
        assert seatNumbers[..k + 1] == seatNumbers[..k] + [n];
        if 1 <= n <= |seats| {
          seats := seats[n - 1 := seats[n - 1].(booked := true, bookingId := Some(id), bookedAt := Some(time))];
        }
      }
      assert seatNumbers[..|selected|] == seatNumbers;
    }
  }
}
