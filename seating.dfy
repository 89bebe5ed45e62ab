/**
 * The records of the two tables of the booking server and the fixed shape of
 * the coach: 80 seats, rows 1 to 11 of seven seats each and a last row of three.
 */
module Seating {

  datatype Option<T> = None | Some(value: T)

  datatype Result<T, E> = Success(value: T) | Failure(error: E)

  /** One row of the `seats` table. */
  datatype Seat = Seat(
    number: int,
    row: int,
    booked: bool,
    bookingId: Option<string>,
    bookedAt: Option<string>)

  /** One row of the `bookings` table; `id` is the AUTOINCREMENT key. */
  datatype Booking = Booking(
    id: nat,
    bookingId: string,
    seatsCount: int,
    seatNumbers: seq<int>,
    createdAt: string)

  const Capacity: int := 80
  const RowWidth: int := 7
  const FullRows: int := 11
  const LastRow: int := 12
  const LastRowWidth: int := 3

  /** No single booking may take more than this many seats. */
  const MaxRequest: int := 7

  /** The seats booked again after initialisation and after every reset. */
  const SeedSeats: seq<nat> := [5, 12, 23, 45, 67, 78]

  /** The row that seat `n` is created in. */
  function RowOf(n: int): int
  {
    if n <= FullRows * RowWidth then (n - 1) / RowWidth + 1 else LastRow
  }

  /** Row r (1..11) holds exactly seats 7r-6..7r; row 12 holds exactly seats 78..80. */
  lemma RowOfPartition(n: int, r: int)
    requires 1 <= n <= Capacity
    ensures 1 <= RowOf(n) <= LastRow
    ensures 1 <= r <= FullRows ==> (RowOf(n) == r <==> RowWidth * (r - 1) < n <= RowWidth * r)
    ensures RowOf(n) == LastRow <==> FullRows * RowWidth < n
  {
  }

  /** The seat-in-row'th seat of full row `row` has number 7(row-1) + seat-in-row and lies in `row`. */
  lemma RowOfSeatInRow(row: int, seatInRow: int)
    requires 1 <= row <= FullRows && 1 <= seatInRow <= RowWidth
    ensures RowOf(RowWidth * (row - 1) + seatInRow) == row
  {
    var n := RowWidth * (row - 1) + seatInRow;
    assert n - 1 == RowWidth * (row - 1) + (seatInRow - 1);
  }

  /** A freshly created, unbooked seat. */
  function LayoutSeat(n: int): (s: Seat)
    ensures s.number == n && s.row == RowOf(n)
    ensures !s.booked && s.bookingId == None && s.bookedAt == None
  {
    Seat(n, RowOf(n), false, None, None)
  }

  function DigitChar(d: int): char
    requires 0 <= d < 10
  {
    "0123456789"[d]
  }

  function DigitValue(c: char): int
  {
    if '0' <= c <= '9' then c as int - '0' as int else 0
  }

  /** Decimal notation of a natural number, as a template literal prints it. */
  function Decimal(n: nat): (s: string)
    ensures |s| >= 1
    decreases n
  {
    if n < 10 then [DigitChar(n)] else Decimal(n / 10) + [DigitChar(n % 10)]
  }

  /** Reads decimal digits back into a number. */
  function DecimalValue(s: string): int
  {
    if s == [] then 0 else DecimalValue(s[..|s| - 1]) * 10 + DigitValue(s[|s| - 1])
  }

  lemma {:induction false} DecimalRoundTrip(n: nat)
    ensures DecimalValue(Decimal(n)) == n
    decreases n
  {
    if n >= 10 {
      var s := Decimal(n);
      assert s[..|s| - 1] == Decimal(n / 10);
      DecimalRoundTrip(n / 10);
    }
  }

  /** The synthetic booking id given to a seeded seat. */
  function SeedId(n: nat): string
  {
    "INITIAL_" + Decimal(n)
  }

  /** Distinct seeded seats carry distinct booking ids. */
  lemma SeedIdInjective(a: nat, b: nat)
    ensures SeedId(a) == SeedId(b) ==> a == b
  {
    if SeedId(a) == SeedId(b) {
      assert Decimal(a) == SeedId(a)[8..];
      assert Decimal(b) == SeedId(b)[8..];
      DecimalRoundTrip(a);
      DecimalRoundTrip(b);
    }
  }
}
