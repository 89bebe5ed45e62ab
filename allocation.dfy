/**
 * The allocation engine of server/index.js: findBestSeats, findConsecutiveSeats
 * and findNearbySeats. Input is the list of free seats, output the seats a
 * group of `requested` passengers receives.
 */
module Allocation {
  import opened Seating

  datatype AllocError = TooManySeats | NotEnoughSeats

  /** Seat numbers strictly increase (what ORDER BY on a UNIQUE column yields). */
  predicate Ascending(s: seq<Seat>)
  {
    forall i, j :: 0 <= i < j < |s| ==> s[i].number < s[j].number
  }

  /** Seat numbers never decrease. */
  predicate Sorted(s: seq<Seat>)
  {
    forall i, j :: 0 <= i < j < |s| ==> s[i].number <= s[j].number
  }

  // ---------------------------------------------------------------------------
  // Sorting with the comparator `a.seat_number - b.seat_number` (a stable sort).

  function InsertByNumber(x: Seat, s: seq<Seat>): (r: seq<Seat>)
    requires Sorted(s)
    ensures |r| == |s| + 1
    ensures r[0] == x || (s != [] && r[0] == s[0])
    ensures Sorted(r) && multiset(r) == multiset(s) + multiset{x}
  {
    if s == [] || x.number <= s[0].number then [x] + s
    else
      assert s == [s[0]] + s[1..];
      [s[0]] + InsertByNumber(x, s[1..])
  }

  function SortByNumber(s: seq<Seat>): (r: seq<Seat>)
    ensures |r| == |s|
    ensures Sorted(r) && multiset(r) == multiset(s)
  {
    if s == [] then []
    else
      assert s == [s[0]] + s[1..];
      InsertByNumber(s[0], SortByNumber(s[1..]))
  }

  /** Sorting a list that is already in order leaves it as it is. */
  lemma {:induction false} SortKeepsSorted(s: seq<Seat>)
    requires Sorted(s)
    ensures SortByNumber(s) == s
  {
    if s != [] {
      SortKeepsSorted(s[1..]);
      assert s == [s[0]] + s[1..];
    }
  }

  // ---------------------------------------------------------------------------
  // Grouping by row.

  /** The seats of `s` in row `r`, in the order they appear in `s`. */
  function RowSeats(s: seq<Seat>, r: int): (t: seq<Seat>)
    ensures |t| <= |s|
    ensures forall x :: x in t <==> x in s && x.row == r
  {
    if s == [] then []
    else
      var last := s[|s| - 1];
      assert s == s[..|s| - 1] + [last];
      RowSeats(s[..|s| - 1], r) + (if last.row == r then [last] else [])
  }

  /** The rows that hold at least one seat of `s`. */
  function Rows(s: seq<Seat>): set<int>
  {
    set x | x in s :: x.row
  }

  lemma {:induction false} RowSeatsAscending(s: seq<Seat>, r: int)
    requires Ascending(s)
    ensures Ascending(RowSeats(s, r))
  {
    if s != [] {
      var init := s[..|s| - 1];
      var last := s[|s| - 1];
      RowSeatsAscending(init, r);
      forall x | x in RowSeats(init, r)
        ensures x.number < last.number
      {
        var i :| 0 <= i < |init| && init[i] == x;
      }
    }
  }

  lemma RowSeatsSnoc(s: seq<Seat>, x: Seat, r: int)
    ensures RowSeats(s + [x], r) == RowSeats(s, r) + (if x.row == r then [x] else [])
  {
    assert (s + [x])[..|s|] == s;
  }

  lemma RowsSnoc(s: seq<Seat>, x: Seat)
    ensures Rows(s + [x]) == Rows(s) + {x.row}
  {
    forall r | r in Rows(s)
      ensures r in Rows(s + [x])
    {
      var y :| y in s && y.row == r;
      assert y in s + [x];
    }
    assert x in s + [x];
  }

  lemma RowSeatsOfMissingRow(s: seq<Seat>, r: int)
    requires r !in Rows(s)
    ensures RowSeats(s, r) == []
  {
  }

  method GroupByRow(available: seq<Seat>) returns (byRow: map<int, seq<Seat>>)
    ensures byRow.Keys == Rows(available)
    ensures forall r :: r in byRow ==> byRow[r] == RowSeats(available, r)
  {
    byRow := map[];
    for i := 0 to |available|
      invariant byRow.Keys == Rows(available[..i])
      invariant forall r :: r in byRow ==> byRow[r] == RowSeats(available[..i], r)
    {
      var seat := available[i];
      ghost var prefix := available[..i];
      assert available[..i + 1] == prefix + [seat];
      RowsSnoc(prefix, seat);
      if seat.row !in byRow {
        RowSeatsOfMissingRow(prefix, seat.row);
        byRow := byRow[seat.row := []];
      }
      byRow := byRow[seat.row := byRow[seat.row] + [seat]];
      forall r | r in byRow
        ensures byRow[r] == RowSeats(prefix + [seat], r)
      {
        RowSeatsSnoc(prefix, seat, r);
      }
    }
    assert available[..|available|] == available;
  }

  // ---------------------------------------------------------------------------
  // findConsecutiveSeats

  /** Positions i .. i+count-1 of `s` exist and each seat number is one more than the previous. */
  predicate IsRunAt(s: seq<Seat>, i: int, count: int)
  {
    0 <= i && i + count <= |s| &&
    forall k :: i < k < i + count ==> Follows(s, k)
  }

  /** The seat at position k is numbered one more than the seat before it. */
  predicate Follows(s: seq<Seat>, k: int)
    requires 0 < k < |s|
  {
    s[k].number == s[k - 1].number + 1
  }

  /** The lowest position at or after `i` where a run of `count` seats starts. */
  function FirstRunFrom(s: seq<Seat>, count: int, i: nat): (r: Option<nat>)
    requires count >= 1
    ensures r.Some? ==> i <= r.value && IsRunAt(s, r.value, count)
    ensures r.Some? ==> forall j :: i <= j < r.value ==> !IsRunAt(s, j, count)
    ensures r.None? ==> forall j :: i <= j ==> !IsRunAt(s, j, count)
    decreases |s| - i
  {
    if i + count > |s| then None
    else if IsRunAt(s, i, count) then Some(i)
    else FirstRunFrom(s, count, i + 1)
  }

  /** The first run of `count` consecutive seats in `s`, or the empty list. */
  function RunOf(s: seq<Seat>, count: int): (run: seq<Seat>)
    requires count >= 1
    ensures |run| == 0 || |run| == count
    ensures |run| == count <==> exists i :: IsRunAt(s, i, count)
    ensures forall x :: x in run ==> x in s
    ensures forall k :: 0 < k < |run| ==> run[k].number == run[k - 1].number + 1
    ensures |run| == count ==>
      exists i :: IsRunAt(s, i, count) && run == s[i..i + count] &&
        forall j :: 0 <= j < i ==> !IsRunAt(s, j, count)
  {
    match FirstRunFrom(s, count, 0)
    case Some(i) =>
      var run := s[i..i + count];
      assert forall k :: 0 < k < count ==> run[k] == s[i + k] && Follows(s, i + k);
      run
    case None => []
  }

  method FindConsecutiveSeats(seats: seq<Seat>, count: int) returns (run: seq<Seat>)
    requires count >= 1
    ensures run == RunOf(SortByNumber(seats), count)
  {
    var sorted := SortByNumber(seats);
    run := ScanForRun(sorted, count);
  }

  /** The two loops of findConsecutiveSeats over the sorted list `s`. */
  method ScanForRun(s: seq<Seat>, count: int) returns (run: seq<Seat>)
    requires count >= 1
    ensures run == RunOf(s, count)
  {
    var i := 0;
    while i <= |s| - count
      invariant 0 <= i
      invariant i <= |s| - count + 1 || i == 0
      invariant FirstRunFrom(s, count, 0) == FirstRunFrom(s, count, i)
    {
      var consecutive := [s[i]];
      var j := i + 1;
      while j < |s| && |consecutive| < count
        invariant i < j <= i + count
        invariant consecutive == s[i..j]
        invariant forall k :: i < k < j ==> Follows(s, k)
      {
        if s[j].number == consecutive[|consecutive| - 1].number + 1 {
          consecutive := consecutive + [s[j]];
          j := j + 1;
        } else {
          NoRunAcrossGap(s, i, count, j);
          break;
        }
      }
      if |consecutive| == count {
        assert IsRunAt(s, i, count);
        return consecutive;
      }
      i := i + 1;
    }
    return [];
  }

  lemma NoRunAcrossGap(s: seq<Seat>, i: int, count: int, j: int)
    requires 0 <= i < j < i + count && j < |s|
    requires s[j].number != s[j - 1].number + 1
    ensures !IsRunAt(s, i, count)
  {
    assert !Follows(s, j);
  }

  // ---------------------------------------------------------------------------
  // findNearbySeats

  /** The `count` lowest-numbered seats (all of them when there are fewer). */
  function NearbySeats(seats: seq<Seat>, count: nat): (r: seq<Seat>)
    ensures |r| == if count <= |seats| then count else |seats|
    ensures Sorted(r) && multiset(r) <= multiset(seats)
  {
    var s := SortByNumber(seats);
    if count <= |s| then
      assert s == s[..count] + s[count..];
      s[..count]
    else s
  }

  /** No seat left out by findNearbySeats has a lower number than one it picked. */
  lemma NearbyAreLowest(seats: seq<Seat>, count: nat, x: Seat, y: Seat)
    requires x in NearbySeats(seats, count)
    requires y in seats && y !in NearbySeats(seats, count)
    ensures x.number <= y.number
  {
    var s := SortByNumber(seats);
    assert y in multiset(s);
    if count <= |s| {
      var r := s[..count];
      assert NearbySeats(seats, count) == r;
      var i :| 0 <= i < count && r[i] == x;
      var j :| 0 <= j < |s| && s[j] == y;
      assert s[i] == x;
    } else {
      assert false;
    }
  }

  // ---------------------------------------------------------------------------
  // findBestSeats

  /** Row `r` has at least `n` free seats. */
  predicate HasRoom(free: seq<Seat>, n: int, r: int)
  {
    |RowSeats(free, r)| >= n
  }

  /** Row `r` has at least `n` free seats, `n` of them in a run of consecutive numbers. */
  predicate HasRun(free: seq<Seat>, n: int, r: int)
    requires n >= 1
  {
    HasRoom(free, n, r) && FirstRunFrom(RowSeats(free, r), n, 0).Some?
  }

  function RoomRows(free: seq<Seat>, n: int): set<int>
  {
    set r | r in Rows(free) && HasRoom(free, n, r)
  }

  function RunRows(free: seq<Seat>, n: int): set<int>
    requires n >= 1
  {
    set r | r in Rows(free) && HasRun(free, n, r)
  }

  /** The lowest row of a set of rows that holds `w`. */
  ghost function Least(rows: set<int>, w: int): (m: int)
    requires w in rows
    ensures m in rows && forall r :: r in rows ==> m <= r
    decreases |rows|
  {
    if forall r :: r in rows ==> w <= r then w
    else
      var v :| v in rows && v < w;
      var rest := rows - {w};
      assert forall r :: r in rows && r != w ==> r in rest;
      Least(rest, v)
  }

  /** The lowest row of `rows`, which holds at least one row. */
  ghost function Lowest(rows: set<int>): (m: int)
    requires exists r :: r in rows
    ensures m in rows && forall r :: r in rows ==> m <= r
  {
    var w :| w in rows;
    Least(rows, w)
  }

  /**
   * What the allocation gives a group of `n`: the first run of `n` consecutive
   * free seats in the lowest row that has one; else the first `n` free seats of
   * the lowest row with `n` free seats; else the `n` lowest-numbered free seats.
   */
  ghost function BestSeats(free: seq<Seat>, n: int): (r: Result<seq<Seat>, AllocError>)
    requires n >= 1
  {
    if n > MaxRequest then Failure(TooManySeats)
    else if |free| < n then Failure(NotEnoughSeats)
    else if exists r :: r in RunRows(free, n) then Success(RunOf(RowSeats(free, Lowest(RunRows(free, n))), n))
    else if exists r :: r in RoomRows(free, n) then Success(RowSeats(free, Lowest(RoomRows(free, n)))[..n])
    else Success(free[..n])
  }

  /** Scanning rows upward from `floor`, the first row that hits is the lowest hit. */
  lemma LeastIsFirstHit(rows: set<int>, hits: set<int>, floor: int, x: int)
    requires hits <= rows && x in hits
    requires forall r :: r in rows && r < floor ==> r !in hits
    requires forall r :: r in rows && floor <= r ==> x <= r
    ensures exists r :: r in hits
    ensures Lowest(hits) == x
  {
  }

  /** Passing over the lowest pending row, which is no hit, keeps the scan's invariant. */
  lemma PassOverRow(rows: set<int>, hits: set<int>, pending: set<int>, floor: int, x: int)
    requires forall r :: r in rows ==> (r in pending <==> floor <= r)
    requires pending <= rows
    requires forall r :: r in rows && r < floor ==> r !in hits
    requires x in pending && x !in hits
    requires forall p :: p in pending ==> x <= p
    ensures forall r :: r in rows ==> (r in pending - {x} <==> x + 1 <= r)
    ensures forall r :: r in rows && r < x + 1 ==> r !in hits
  {
  }

  /** Once no row is pending, no row hits. */
  lemma NoHitLeft(rows: set<int>, hits: set<int>, pending: set<int>, floor: int)
    requires forall r :: r in rows ==> (r in pending <==> floor <= r)
    requires forall r :: r in rows && r < floor ==> r !in hits
    requires hits <= rows
    requires !exists p :: p in pending
    ensures !exists r :: r in hits
  {
  }

  /** A row's free seats hold a run of `n` exactly when the first run found there has `n` seats. */
  lemma RunInRow(free: seq<Seat>, n: int, r: int)
    requires n >= 1
    ensures HasRoom(free, n, r) ==> (|RunOf(RowSeats(free, r), n)| == n <==> HasRun(free, n, r))
  {
  }

  lemma AscendingIsSorted(s: seq<Seat>)
    requires Ascending(s)
    ensures Sorted(s)
  {
  }

  /**
   * findBestSeats over the free seats in ascending seat order. Rows are visited
   * in ascending row number, the order in which a for-in loop visits integer keys.
   */
  method FindBestSeats(available: seq<Seat>, requested: int) returns (result: Result<seq<Seat>, AllocError>)
    requires requested >= 1
    requires Ascending(available)
    ensures result == BestSeats(available, requested)
  {
    if requested > MaxRequest {
      return Failure(TooManySeats);
    }
    if |available| < requested {
      return Failure(NotEnoughSeats);
    }
    var seatsByRow := GroupByRow(available);
    forall r | r in seatsByRow
      ensures Sorted(seatsByRow[r])
    {
      RowSeatsAscending(available, r);
      AscendingIsSorted(RowSeats(available, r));
    }

    // Strategy 1: consecutive seats in one row.
    ghost var runRows := RunRows(available, requested);
    forall r
      ensures r in runRows <==>
        (r in seatsByRow && |seatsByRow[r]| >= requested && |RunOf(seatsByRow[r], requested)| == requested)
    {
      RunInRow(available, requested, r);
    }
    var consecutive := ScanRowsForRun(seatsByRow, requested, runRows);
    if consecutive.Some? {
      return Success(consecutive.value);
    }

    // Strategy 2: any free seats of one row.
    ghost var roomRows := RoomRows(available, requested);
    var sameRow := ScanRowsForRoom(seatsByRow, requested, roomRows);
    if sameRow.Some? {
      return Success(sameRow.value);
    }

    // Strategy 3: the lowest-numbered free seats, across rows.
    AscendingIsSorted(available);
    SortKeepsSorted(available);
    var nearby := NearbySeats(available, requested);
    return Success(nearby);
  }

  /**
   * The first loop of findBestSeats: the lowest row whose (ordered) free seats
   * hold a run of `requested`; `hits` is the set of such rows.
   */
  method ScanRowsForRun(seatsByRow: map<int, seq<Seat>>, requested: int, ghost hits: set<int>)
    returns (found: Option<seq<Seat>>)
    requires requested >= 1
    requires forall r :: r in seatsByRow ==> Sorted(seatsByRow[r])
    requires hits <= seatsByRow.Keys
    requires forall r :: r in hits <==>
      (r in seatsByRow && |seatsByRow[r]| >= requested && |RunOf(seatsByRow[r], requested)| == requested)
    ensures found.None? ==> !exists r :: r in hits
    ensures found.Some? ==> ((exists r :: r in hits) &&
      found.value == RunOf(seatsByRow[Lowest(hits)], requested))
  {
    ghost var rows := seatsByRow.Keys;
    var pending := seatsByRow.Keys;
    ghost var floor := if exists r :: r in rows then Lowest(rows) else 0;
    while exists p :: p in pending
      invariant forall r :: r in rows ==> (r in pending <==> floor <= r)
      invariant pending <= rows
      invariant forall r :: r in rows && r < floor ==> r !in hits
      decreases |pending|
    {
      assert Lowest(pending) in pending;
      var rowNum :| rowNum in pending && forall p :: p in pending ==> rowNum <= p;
      var rowSeats := seatsByRow[rowNum];
      if |rowSeats| >= requested {
        SortKeepsSorted(rowSeats);
        var consecutive := FindConsecutiveSeats(rowSeats, requested);
        if |consecutive| == requested {
          LeastIsFirstHit(rows, hits, floor, rowNum);
          return Some(consecutive);
        }
      }
      PassOverRow(rows, hits, pending, floor, rowNum);
      pending := pending - {rowNum};
      floor := rowNum + 1;
    }
    NoHitLeft(rows, hits, pending, floor);
    return None;
  }

  /** The second loop of findBestSeats: the lowest row with `requested` free seats, `hits` being those rows. */
  method ScanRowsForRoom(seatsByRow: map<int, seq<Seat>>, requested: int, ghost hits: set<int>)
    returns (found: Option<seq<Seat>>)
    requires requested >= 1
    requires hits <= seatsByRow.Keys
    requires forall r :: r in hits <==> r in seatsByRow && |seatsByRow[r]| >= requested
    ensures found.None? ==> !exists r :: r in hits
    ensures found.Some? ==> ((exists r :: r in hits) &&
      found.value == seatsByRow[Lowest(hits)][..requested])
  {
    ghost var rows := seatsByRow.Keys;
    var pending := seatsByRow.Keys;
    ghost var floor := if exists r :: r in rows then Lowest(rows) else 0;
    while exists p :: p in pending
      invariant forall r :: r in rows ==> (r in pending <==> floor <= r)
      invariant pending <= rows
      invariant forall r :: r in rows && r < floor ==> r !in hits
      decreases |pending|
    {
      assert Lowest(pending) in pending;
      var rowNum :| rowNum in pending && forall p :: p in pending ==> rowNum <= p;
      var rowSeats := seatsByRow[rowNum];
      if |rowSeats| >= requested {
        LeastIsFirstHit(rows, hits, floor, rowNum);
        return Some(rowSeats[..requested]);
      }
      PassOverRow(rows, hits, pending, floor, rowNum);
      pending := pending - {rowNum};
      floor := rowNum + 1;
    }
    NoHitLeft(rows, hits, pending, floor);
    return None;
  }

  // ---------------------------------------------------------------------------
  // What the allocation promises, stated without its search order.

  /** Seat number `k` is free and lies in row `r`. */
  ghost predicate FreeAt(free: seq<Seat>, r: int, k: int)
  {
    exists x :: x in free && x.row == r && x.number == k
  }

  /** Seats m, m+1, ..., m+n-1 are all free and all in row `r`. */
  ghost predicate FreeBlock(free: seq<Seat>, r: int, m: int, n: int)
  {
    forall k :: m <= k < m + n ==> FreeAt(free, r, k)
  }

  /** Some seat of `s` has number `c`. */
  ghost predicate HasNumber(s: seq<Seat>, c: int)
  {
    exists x :: x in s && x.number == c
  }

  /** Along a run, seat numbers go up by exactly one per position. */
  lemma {:induction false} RunNumbers(s: seq<Seat>, i: int, n: int)
    requires n >= 1 && IsRunAt(s, i, n)
    ensures forall j :: i <= j < i + n ==> s[j].number == s[i].number + (j - i)
    decreases n
  {
    if n > 1 {
      assert IsRunAt(s, i, n - 1);
      RunNumbers(s, i, n - 1);
      assert Follows(s, i + n - 1);
    }
  }

  /** In an ascending list holding every number of m .. m+n-1, those numbers sit side by side from m's position. */
  lemma {:induction false} BlockPositions(s: seq<Seat>, i: int, m: int, n: int, k: int)
    requires Ascending(s) && 0 <= i < |s| && s[i].number == m
    requires forall c :: m <= c < m + n ==> HasNumber(s, c)
    requires 0 <= k < n
    ensures i + k < |s| && s[i + k].number == m + k
    decreases k
  {
    if k > 0 {
      BlockPositions(s, i, m, n, k - 1);
      assert HasNumber(s, m + k);
      var x :| x in s && x.number == m + k;
      var j :| 0 <= j < |s| && s[j] == x;
      assert j >= i + k;
    }
  }

  /** In an ascending list holding every number of m .. m+n-1, a run of `n` starts at m's position. */
  lemma BlockIsRunAt(s: seq<Seat>, i: int, m: int, n: int)
    requires Ascending(s) && 0 <= i < |s| && s[i].number == m && n >= 1
    requires forall c :: m <= c < m + n ==> HasNumber(s, c)
    ensures IsRunAt(s, i, n)
  {
    BlockPositions(s, i, m, n, n - 1);
    forall k | i < k < i + n
      ensures Follows(s, k)
    {
      BlockPositions(s, i, m, n, k - i);
      BlockPositions(s, i, m, n, k - 1 - i);
    }
  }

  /** The run found in a row that has one is a block of free seats of that row. */
  lemma RunIsBlock(free: seq<Seat>, n: int, r: int)
    requires n >= 1 && HasRun(free, n, r)
    ensures var v := RunOf(RowSeats(free, r), n);
      |v| == n && FreeBlock(free, r, v[0].number, n) &&
      forall k :: 0 <= k < n ==> v[k] in free && v[k].row == r && v[k].number == v[0].number + k
  {
    var s := RowSeats(free, r);
    var i := FirstRunFrom(s, n, 0).value;
    var v := RunOf(s, n);
    assert v == s[i..i + n];
    RunNumbers(s, i, n);
    forall k | 0 <= k < n
      ensures v[k] in free && v[k].row == r && v[k].number == v[0].number + k
    {
      assert v[k] == s[i + k] && s[i + k] in s;
    }
    forall c | v[0].number <= c < v[0].number + n
      ensures FreeAt(free, r, c)
    {
      assert v[c - v[0].number].number == c;
    }
  }

  /** In an ascending list holding every number of m .. m+n-1, the first run of `n` starts at m or lower. */
  lemma RunNoLaterThanBlock(s: seq<Seat>, m: int, n: int)
    requires Ascending(s) && n >= 1
    requires forall c :: m <= c < m + n ==> HasNumber(s, c)
    ensures FirstRunFrom(s, n, 0).Some?
    ensures RunOf(s, n)[0].number <= m
  {
    assert HasNumber(s, m);
    var y :| y in s && y.number == m;
    var i :| 0 <= i < |s| && s[i] == y;
    BlockIsRunAt(s, i, m, n);
    var i0 := FirstRunFrom(s, n, 0).value;
    assert i0 <= i;
    if i0 < i {
      assert s[i0].number < s[i].number;
    }
    assert RunOf(s, n)[0] == s[i0];
  }

  /** A block of free seats in row `r` makes `r` a row where the first strategy succeeds, at or below the block. */
  lemma BlockIsRun(free: seq<Seat>, n: int, r: int, m: int)
    requires Ascending(free) && n >= 1 && FreeBlock(free, r, m, n)
    ensures r in RunRows(free, n)
    ensures RunOf(RowSeats(free, r), n)[0].number <= m
  {
    var s := RowSeats(free, r);
    RowSeatsAscending(free, r);
    forall c | m <= c < m + n
      ensures HasNumber(s, c)
    {
      assert FreeAt(free, r, c);
      var x :| x in free && x.row == r && x.number == c;
      assert x in s;
    }
    RunNoLaterThanBlock(s, m, n);
    assert s[FirstRunFrom(s, n, 0).value] in free;
  }

  /** Every outcome: the two refusals, and otherwise exactly `n` distinct free seats in ascending order. */
  lemma BestSeatsShape(free: seq<Seat>, n: int)
    requires Ascending(free) && n >= 1
    ensures BestSeats(free, n).Success? <==> n <= MaxRequest && n <= |free|
    ensures BestSeats(free, n) == Failure(TooManySeats) <==> n > MaxRequest
    ensures BestSeats(free, n).Success? ==>
      var v := BestSeats(free, n).value;
      |v| == n && Ascending(v) && forall x :: x in v ==> x in free
  {
    if n <= MaxRequest && n <= |free| {
      if exists r :: r in RunRows(free, n) {
        var row := Lowest(RunRows(free, n));
        RunShape(free, n, row);
        assert BestSeats(free, n) == Success(RunOf(RowSeats(free, row), n));
      } else if exists r :: r in RoomRows(free, n) {
        var row := Lowest(RoomRows(free, n));
        RoomShape(free, n, row);
        assert BestSeats(free, n) == Success(RowSeats(free, row)[..n]);
      } else {
        assert BestSeats(free, n) == Success(free[..n]);
      }
    }
  }

  lemma RunShape(free: seq<Seat>, n: int, r: int)
    requires Ascending(free) && n >= 1 && HasRun(free, n, r)
    ensures var v := RunOf(RowSeats(free, r), n);
      |v| == n && Ascending(v) && forall x :: x in v ==> x in free
  {
    var s := RowSeats(free, r);
    RowSeatsAscending(free, r);
    var i := FirstRunFrom(s, n, 0).value;
    assert RunOf(s, n) == s[i..i + n];
  }

  lemma RoomShape(free: seq<Seat>, n: int, r: int)
    requires Ascending(free) && n >= 1 && HasRoom(free, n, r)
    ensures var v := RowSeats(free, r)[..n];
      |v| == n && Ascending(v) && forall x :: x in v ==> x in free
  {
    RowSeatsAscending(free, r);
    var s := RowSeats(free, r);
    forall x | x in s[..n]
      ensures x in free
    {
      assert x in s;
    }
  }

  /**
   * When some row has `n` consecutive free seats, the group receives such a
   * block, in the lowest row that has one and starting at the lowest seat of
   * that row where one starts.
   */
  lemma BestSeatsPrefersBlock(free: seq<Seat>, n: int, r: int, m: int)
    requires Ascending(free) && 1 <= n <= MaxRequest
    requires FreeBlock(free, r, m, n)
    ensures BestSeats(free, n).Success?
    ensures var v := BestSeats(free, n).value;
      |v| == n && FreeBlock(free, v[0].row, v[0].number, n) &&
      (forall k :: 0 <= k < n ==> v[k] in free && v[k].row == v[0].row && v[k].number == v[0].number + k) &&
      (v[0].row < r || (v[0].row == r && v[0].number <= m))
  {
    BlockIsRun(free, n, r, m);
    var row := Lowest(RunRows(free, n));
    RunIsBlock(free, n, row);
    assert BestSeats(free, n) == Success(RunOf(RowSeats(free, row), n));
  }

  /**
   * When no row has `n` consecutive free seats but row `r` has `n` free seats,
   * the group receives the `n` lowest-numbered free seats of one row, no higher than `r`.
   */
  lemma BestSeatsPrefersOneRow(free: seq<Seat>, n: int, r: int)
    requires Ascending(free) && 1 <= n <= MaxRequest
    requires forall q, m :: !FreeBlock(free, q, m, n)
    requires |RowSeats(free, r)| >= n
    ensures BestSeats(free, n).Success?
    ensures var v := BestSeats(free, n).value;
      |v| == n && v[0].row <= r &&
      (forall k :: 0 <= k < n ==> v[k] in free && v[k].row == v[0].row) &&
      (forall y :: y in free && y.row == v[0].row && y !in v ==> v[n - 1].number < y.number)
  {
    NoBlockNoRun(free, n);
    assert RowSeats(free, r)[0] in RowSeats(free, r);
    assert r in RoomRows(free, n);
    SecondStrategy(free, n);
    LowestOfRow(free, n, Lowest(RoomRows(free, n)));
  }

  /** The second strategy decides when the first finds nothing and some row has room. */
  lemma SecondStrategy(free: seq<Seat>, n: int)
    requires 1 <= n <= MaxRequest && n <= |free|
    requires !exists q :: q in RunRows(free, n)
    requires exists q :: q in RoomRows(free, n)
    ensures BestSeats(free, n) == Success(RowSeats(free, Lowest(RoomRows(free, n)))[..n])
  {
  }

  /** Without a block of `n` free seats anywhere, no row passes the first strategy. */
  lemma NoBlockNoRun(free: seq<Seat>, n: int)
    requires n >= 1
    requires forall q, m :: !FreeBlock(free, q, m, n)
    ensures !exists q :: q in RunRows(free, n)
  {
    if exists q :: q in RunRows(free, n) {
      var q :| q in RunRows(free, n);
      RunIsBlock(free, n, q);
      assert false;
    }
  }

  /** The first `n` free seats of a row with room are the lowest-numbered free seats of that row. */
  lemma LowestOfRow(free: seq<Seat>, n: int, row: int)
    requires Ascending(free) && n >= 1 && HasRoom(free, n, row)
    ensures var v := RowSeats(free, row)[..n];
      |v| == n && v[0].row == row &&
      (forall k :: 0 <= k < n ==> v[k] in free && v[k].row == row) &&
      (forall y :: y in free && y.row == row && y !in v ==> v[n - 1].number < y.number)
  {
    var s := RowSeats(free, row);
    RowSeatsAscending(free, row);
    var v := s[..n];
    forall k | 0 <= k < n
      ensures v[k] in free && v[k].row == row
    {
      assert v[k] in s;
    }
    forall y | y in free && y.row == row && y !in v
      ensures v[n - 1].number < y.number
    {
      assert y in s;
      var j :| 0 <= j < |s| && s[j] == y;
      assert j >= n;
    }
  }

  /**
   * When no row has `n` free seats, the group receives the `n` lowest-numbered
   * free seats, and they lie in more than one row.
   */
  lemma BestSeatsAcrossRows(free: seq<Seat>, n: int)
    requires Ascending(free) && 1 <= n <= MaxRequest && n <= |free|
    requires forall r :: |RowSeats(free, r)| < n
    ensures BestSeats(free, n).Success?
    ensures var v := BestSeats(free, n).value;
      |v| == n && (forall x :: x in v ==> x in free) &&
      (forall x, y :: x in v && y in free && y !in v ==> x.number < y.number) &&
      exists k :: 0 <= k < n && v[k].row != v[0].row
  {
    assert !exists q :: q in RoomRows(free, n);
    var v := BestSeats(free, n).value;
    assert v == free[..n];
    assert free == v + free[n..];
    forall x, y | x in v && y in free && y !in v
      ensures x.number < y.number
    {
      var i :| 0 <= i < n && v[i] == x;
      var j :| 0 <= j < |free| && free[j] == y;
      assert j >= n;
    }
    if forall k :: 0 <= k < n ==> v[k].row == v[0].row {
      OneRowPrefix(free, n, v[0].row);
      assert false;
    }
  }

  /** A prefix of `n` seats all in row `r` leaves at least `n` seats in that row. */
  lemma {:induction false} OneRowPrefix(s: seq<Seat>, n: int, r: int)
    requires 0 <= n <= |s|
    requires forall k :: 0 <= k < n ==> s[k].row == r
    ensures |RowSeats(s, r)| >= n
    decreases |s|
  {
    if n < |s| {
      var init := s[..|s| - 1];
      assert s == init + [s[|s| - 1]];
      OneRowPrefix(init, n, r);
    } else if n > 0 {
      var init := s[..|s| - 1];
      assert s == init + [s[|s| - 1]];
      OneRowPrefix(init, n - 1, r);
    }
  }
}
