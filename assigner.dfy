/** The seat assigner: a rows x cols grid of seats (true = unavailable), a
    count of available seats per row and in total, the ticket ledger and five
    request counters, all updated in place by `Reserve`. The ghost field
    `Cells` is the grid as a value; `Valid()` ties the array and the counters
    to it, and every method is specified against the functions of modules
    Grid, Placement and Tickets. */
module Assigner {
  import opened Grid
  import opened Placement
  import opened Tickets

  class SeatAssigner {
    const rows: int
    const cols: int
    const rowBuffer: int
    const colBuffer: int
    const seats: array2<bool>
    const seatsRemain: array<int>
    var capacity: int
    var tickets: map<string, seq<string>>
    var assignTogether: int
    var assignSeparate: int
    var noAssign: int
    var invalidReq: int
    var totalReq: int

    /** The grid as a value. */
    ghost var Cells: seq<seq<bool>>

    /** The array holds `Cells`; rows are lettered, so there are at most 26. */
    ghost predicate Shape()
      reads this`Cells, seats
    {
      0 <= rows <= 26 && 0 <= cols &&
      seats.Length0 == rows && seats.Length1 == cols && seatsRemain.Length == rows &&
      |Cells| == rows && Rect(Cells, cols) &&
      forall r, c {:trigger seats[r, c]} :: 0 <= r < rows && 0 <= c < cols ==> seats[r, c] == Cells[r][c]
    }

    /** Object invariant: `seatsRemain[r]` is the number of available cells of
        row r and `capacity` the number of available cells of the grid. */
    ghost predicate Valid()
      reads this`Cells, this`capacity, seats, seatsRemain
    {
      Shape() &&
      (forall r {:trigger seatsRemain[r]} :: 0 <= r < rows ==> seatsRemain[r] == FreeCount(Cells[r])) &&
      capacity == TotalFree(Cells)
    }

    constructor (rows: int, cols: int, rowBuffer: int, colBuffer: int)
      requires 0 <= rows <= 26 && 0 <= cols
      ensures Valid() && fresh(seats) && fresh(seatsRemain)
      ensures this.rows == rows && this.cols == cols
      ensures this.rowBuffer == rowBuffer && this.colBuffer == colBuffer
      ensures Cells == EmptyGrid(rows, cols) && capacity == rows * cols
      ensures tickets == map[]
      ensures assignTogether == 0 && assignSeparate == 0 && noAssign == 0
      ensures invalidReq == 0 && totalReq == 0
    {
      this.rows := rows;
      this.cols := cols;
      this.capacity := rows * cols;
      this.rowBuffer := rowBuffer;
      this.colBuffer := colBuffer;
      this.seats := new bool[rows, cols]((_, _) => false);
      this.seatsRemain := new int[rows](_ => cols);
      this.tickets := map[];
      this.assignTogether := 0;
      this.assignSeparate := 0;
      this.noAssign := 0;
      this.invalidReq := 0;
      this.totalReq := 0;
      Cells := EmptyGrid(rows, cols);
      EmptyGridFree(rows, cols);
    }

    /** Handles one request for `numSeats` seats under reservation `id`:
        rejects a count <= 0 as invalid, rejects a count above the seats still
        available, and otherwise places it. */
    method Reserve(id: string, numSeats: int) returns (ok: bool)
      requires Valid()
      modifies this, seats, seatsRemain
      ensures Valid()
      ensures totalReq == old(totalReq) + 1
      ensures ok <==> 0 < numSeats <= old(capacity)
      ensures numSeats <= 0 ==> invalidReq == old(invalidReq) + 1 && noAssign == old(noAssign)
      ensures 0 < numSeats && old(capacity) < numSeats ==>
        noAssign == old(noAssign) + 1 && invalidReq == old(invalidReq)
      ensures !ok ==>
        Cells == old(Cells) && capacity == old(capacity) && seatsRemain[..] == old(seatsRemain[..]) &&
        tickets == old(tickets) &&
        assignTogether == old(assignTogether) && assignSeparate == old(assignSeparate)
      ensures ok ==>
        invalidReq == old(invalidReq) && noAssign == old(noAssign) &&
        var groups := Placements(old(Cells), numSeats, cols);
        var seated := AllSeats(groups);
        var split := numSeats > cols || AnySplit(groups);
        Labelable(seated) &&
        Cells == Buffered(WithSeats(old(Cells), seated), AllSpans(groups), rowBuffer, colBuffer) &&
        tickets == Issue(old(tickets), id, Labels(seated)) &&
        assignSeparate == old(assignSeparate) + (if split then 1 else 0) &&
        assignTogether == old(assignTogether) + (if split then 0 else 1)
    {
      totalReq := totalReq + 1;
      if numSeats <= 0 {
        invalidReq := invalidReq + 1;
        return false;
      }
      if numSeats > capacity {
        noAssign := noAssign + 1;
        return false;
      }
      AssignSeat(id, numSeats);
      return true;
    }

    /** Seats an admitted request: every group by `PlaceAll`, then the buffers
        of the spans of the groups that sat together, then those of each split
        group, and counts the request as together or split. */
    method AssignSeat(id: string, n: int)
      requires Valid() && 1 <= n <= capacity
      modifies seats, seatsRemain, this`capacity, this`Cells, this`tickets
      modifies this`assignTogether, this`assignSeparate
      ensures Valid()
      ensures var groups := Placements(old(Cells), n, cols);
        var seated := AllSeats(groups);
        Labelable(seated) &&
        Cells == Buffered(WithSeats(old(Cells), seated), AllSpans(groups), rowBuffer, colBuffer) &&
        tickets == Issue(old(tickets), id, Labels(seated))
      ensures var split := n > cols || AnySplit(Placements(old(Cells), n, cols));
        assignSeparate == old(assignSeparate) + (if split then 1 else 0) &&
        assignTogether == old(assignTogether) + (if split then 0 else 1)
    {
      ghost var groups := Placements(Cells, n, cols);
      var seatsTogether, seatsSeparate, separate := PlaceAll(id, n);
      // buffers only after every group of the request is placed
      ghost var placed := Cells;
      CloseRequest(seatsTogether, seatsSeparate, separate);
      assert Cells == Buffered(placed, AllSpans(groups), rowBuffer, colBuffer) by {
        BufferOrder(placed, groups, rowBuffer, colBuffer);
      }
    }

    /** The end of `AssignSeat`: the buffers of the together spans and of
        each split group, then the request counted as split or together. */
    method CloseRequest(seatsTogether: seq<Span>, seatsSeparate: seq<seq<Span>>, separate: bool)
      requires Valid()
      requires AllInGrid(seatsTogether, rows, cols) && ListsInGrid(seatsSeparate, rows, cols)
      modifies seats, seatsRemain, this`capacity, this`Cells
      modifies this`assignTogether, this`assignSeparate
      ensures Valid()
      ensures Cells == Buffered(old(Cells), seatsTogether + Flatten(seatsSeparate), rowBuffer, colBuffer)
      ensures assignSeparate == old(assignSeparate) + (if separate then 1 else 0)
      ensures assignTogether == old(assignTogether) + (if separate then 0 else 1)
    {
      SeatBuffer(seatsTogether);
      SeatBufferLists(seatsSeparate);
      BufferedAppend(old(Cells), seatsTogether, Flatten(seatsSeparate), rowBuffer, colBuffer);
      if separate {
        assignSeparate := assignSeparate + 1;
      } else {
        assignTogether := assignTogether + 1;
      }
    }

    /** The request loop of `AssignSeat`: groups of min(remaining, cols)
        seats, each placed by `PlaceNext`, collecting the spans of the
        together groups in one list and those of each split group in a list
        of its own. `separate` records whether the request counts as split. */
    method PlaceAll(id: string, n: int) returns (seatsTogether: seq<Span>, seatsSeparate: seq<seq<Span>>, separate: bool)
      requires Valid() && 1 <= n <= capacity
      modifies seats, seatsRemain, this`capacity, this`Cells, this`tickets
      ensures Valid()
      ensures var groups := Placements(old(Cells), n, cols);
        Labelable(AllSeats(groups)) &&
        Cells == WithSeats(old(Cells), AllSeats(groups)) &&
        tickets == Issue(old(tickets), id, Labels(AllSeats(groups))) &&
        separate == (n > cols || AnySplit(groups)) &&
        seatsTogether == TogetherSpans(groups) && Flatten(seatsSeparate) == SeparateSpans(groups)
      ensures AllInGrid(seatsTogether, rows, cols) && ListsInGrid(seatsSeparate, rows, cols)
    {
      TotalFreeBound(Cells, cols);
      seatsTogether := [];
      seatsSeparate := [];
      separate := false;
      if n > cols {
        separate := true;
      }
      var numSeats := n;
      ghost var done: seq<Group> := [];
      assert Labels([]) == [];
      while numSeats > 0
        invariant Valid() && 1 <= cols
        invariant numSeats <= capacity
        invariant Cells == WithSeats(old(Cells), AllSeats(done))
        invariant Placements(old(Cells), n, cols) == done + Placements(WithSeats(old(Cells), AllSeats(done)), numSeats, cols)
        invariant Labelable(AllSeats(done)) && tickets == Issue(old(tickets), id, Labels(AllSeats(done)))
        invariant separate == (n > cols || AnySplit(done))
        invariant seatsTogether == TogetherSpans(done)
        invariant Flatten(seatsSeparate) == SeparateSpans(done)
        invariant AllInGrid(seatsTogether, rows, cols) && ListsInGrid(seatsSeparate, rows, cols)
        decreases numSeats
      {
        ghost var done0, numSeats0 := done, numSeats;
        ghost var grp;
        numSeats, seatsTogether, seatsSeparate, separate, done, grp :=
          PlaceNext(id, n, numSeats, seatsTogether, seatsSeparate, separate, old(Cells), old(tickets), done);
        PlacementsStep(old(Cells), n, cols, done0, numSeats0, grp, done, numSeats);
      }
      assert done == Placements(old(Cells), n, cols);
    }

    /** One iteration of the request loop: places the next group of
        min(numSeats, cols) seats and files its spans. `c0` and `ledger0` are
        the grid and the ledger before the request, `done` the groups placed
        so far. */
    method PlaceNext(id: string, n: int, numSeats: int, st: seq<Span>, ss: seq<seq<Span>>, sep: bool,
                     ghost c0: seq<seq<bool>>, ghost ledger0: map<string, seq<string>>, ghost done: seq<Group>)
      returns (numSeats': int, st': seq<Span>, ss': seq<seq<Span>>, sep': bool, ghost done': seq<Group>, ghost grp: Group)
      requires Valid() && 1 <= cols && 0 < numSeats <= capacity
      requires Cells == WithSeats(c0, AllSeats(done))
      requires Labelable(AllSeats(done)) && tickets == Issue(ledger0, id, Labels(AllSeats(done)))
      requires sep == (n > cols || AnySplit(done))
      requires st == TogetherSpans(done) && Flatten(ss) == SeparateSpans(done)
      requires AllInGrid(st, rows, cols) && ListsInGrid(ss, rows, cols)
      modifies seats, seatsRemain, this`capacity, this`Cells, this`tickets
      ensures Valid() && numSeats' == numSeats - cols && numSeats' <= capacity
      ensures grp == GroupPlacement(WithSeats(c0, AllSeats(done)), if numSeats < cols then numSeats else cols)
      ensures done' == done + [grp]
      ensures Cells == WithSeats(c0, AllSeats(done'))
      ensures Labelable(AllSeats(done')) && tickets == Issue(ledger0, id, Labels(AllSeats(done')))
      ensures sep' == (n > cols || AnySplit(done'))
      ensures st' == TogetherSpans(done') && Flatten(ss') == SeparateSpans(done')
      ensures AllInGrid(st', rows, cols) && ListsInGrid(ss', rows, cols)
    {
      var seatCount := if numSeats < cols then numSeats else cols;
      grp := GroupPlacement(Cells, seatCount);
      assert |grp.seats| == seatCount && Labelable(grp.seats) && AllInGrid(grp.spans, rows, cols) by {
        GroupPlacementFacts(Cells, seatCount);
        RunsOfInGrid(grp.seats, rows, cols);
      }
      assert numSeats - cols <= TotalFree(WithSeats(Cells, grp.seats)) by {
        GroupPlacementFacts(Cells, seatCount);
        TotalFreeWithSeats(Cells, grp.seats);
      }
      GroupStep(done, grp, c0, ledger0, id);
      SpansStep(done, grp, st, ss, rows, cols);
      AnySplitAppend(done, grp);
      numSeats' := numSeats - cols;
      var spans, together := PlaceGroup(id, seatCount);
      st', ss', sep' := st, ss, sep;
      if together {
        st' := st + spans;
      } else {
        ss' := ss + [spans];
        sep' := true;
      }
      done' := done + [grp];
    }

    /** The buffers of each list of spans in turn (the split groups' spans). */
    method SeatBufferLists(lists: seq<seq<Span>>)
      requires Valid()
      requires ListsInGrid(lists, rows, cols)
      modifies seats, seatsRemain, this`capacity, this`Cells
      ensures Valid()
      ensures Cells == Buffered(old(Cells), Flatten(lists), rowBuffer, colBuffer)
    {
      SameGrid(Buffered(Cells, [], rowBuffer, colBuffer), Cells);
      var k := 0;
      while k < |lists|
        invariant 0 <= k <= |lists|
        invariant Valid()
        invariant Cells == Buffered(old(Cells), Flatten(lists[..k]), rowBuffer, colBuffer)
      {
        SeatBuffer(lists[k]);
        BufferedAppend(old(Cells), Flatten(lists[..k]), lists[k], rowBuffer, colBuffer);
        assert lists[..k + 1][..k] == lists[..k];
        k := k + 1;
      }
      assert lists[..k] == lists;
    }

    /** Seats one group of `g` seats (the body of the request loop): the
        leftmost available run of the highest row that has one, otherwise
        split across the grid. Returns the spans to buffer later and whether
        the group sat together. */
    method PlaceGroup(id: string, g: int) returns (spans: seq<Span>, together: bool)
      requires Valid() && 1 <= g <= capacity
      modifies seats, seatsRemain, this`capacity, this`Cells, this`tickets
      ensures Valid()
      ensures var grp := GroupPlacement(old(Cells), g);
        Labelable(grp.seats) && Cells == WithSeats(old(Cells), grp.seats) &&
        tickets == Issue(old(tickets), id, Labels(grp.seats)) &&
        spans == grp.spans && together == grp.together
    {
      var seatCount := g;
      var i := rows - 1;
      while i >= 0
        invariant -1 <= i < rows
        invariant Valid() && Cells == old(Cells) && tickets == old(tickets)
        invariant HighestRunRow(Cells, g, rows - 1) == HighestRunRow(Cells, g, i)
      {
        var startIdx := SitTogether(i, seatCount);
        if startIdx != -1 {
          ghost var grp := GroupPlacement(Cells, g);
          assert HighestRunRow(Cells, g, i) == i;
          assert grp == Group(RunSeats(i, startIdx, g), [Span(startIdx, startIdx + g, i)], true);
          var rep := AssignTogether(id, seatCount, i, startIdx);
          return [rep], true;
        }
        i := i - 1;
      }
      ghost var free := ScanFree(Cells);
      assert GroupPlacement(Cells, g) == Group(free[..g], RunsOf(free[..g]), false) by {
        ScanFreeFacts(Cells);
      }
      spans := AssignSeparate(id, seatCount);
      together := false;
    }

    /** The start of the leftmost available run of `numSeats` cells in `row`, or -1. */
    method SitTogether(row: int, numSeats: int) returns (start: int)
      requires Valid() && 0 <= row < rows
      ensures start == LeftmostRun(Cells[row], numSeats)
    {
      var idx := 0;
      var count := 0;
      while idx < cols
        invariant 0 <= count <= idx <= cols
        invariant 1 <= numSeats ==> count < numSeats
        invariant forall k :: idx - count <= k < idx ==> !Cells[row][k]
        invariant count < idx ==> Cells[row][idx - count - 1]
        invariant forall t :: 0 <= t && t + numSeats <= idx ==> !RunAt(Cells[row], t, numSeats)
      {
        if seats[row, idx] {
          count := 0;
          idx := idx + 1;
          continue;
        }
        count := count + 1;
        if count == numSeats {
          assert RunAt(Cells[row], idx - numSeats + 1, numSeats);
          return idx - numSeats + 1;
        }
        idx := idx + 1;
      }
      return -1;
    }

    /** Seats a group in cells `startIdx .. startIdx+seatCount-1` of `row` and
        issues their labels left to right. */
    method AssignTogether(id: string, seatCount: int, row: int, startIdx: int) returns (rep: Span)
      requires Valid() && 0 <= row < rows && RunAt(Cells[row], startIdx, seatCount)
      modifies seats, seatsRemain, this`capacity, this`Cells, this`tickets
      ensures Valid()
      ensures Labelable(RunSeats(row, startIdx, seatCount))
      ensures Cells == WithSeats(old(Cells), RunSeats(row, startIdx, seatCount))
      ensures tickets == Issue(old(tickets), id, Labels(RunSeats(row, startIdx, seatCount)))
      ensures rep == Span(startIdx, startIdx + seatCount, row)
    {
      FillRow(row, startIdx, startIdx + seatCount);
      IssueLabels(id, row, startIdx, seatCount + startIdx);
      rep := Span(startIdx, seatCount + startIdx, row);
    }

    /** Seats a group that fits in no row: the first `seatCount` available
        cells bottom-to-top, left to right, recording each block of adjacent
        seats as a span. */
    method AssignSeparate(id: string, seatCount: int) returns (bufferReps: seq<Span>)
      requires Valid() && 1 <= seatCount <= capacity
      modifies seats, seatsRemain, this`capacity, this`Cells, this`tickets
      ensures Valid()
      ensures seatCount <= |ScanFree(old(Cells))|
      ensures var taken := ScanFree(old(Cells))[..seatCount];
        Labelable(taken) && Cells == WithSeats(old(Cells), taken) &&
        tickets == Issue(old(tickets), id, Labels(taken)) && bufferReps == RunsOf(taken)
    {
      ghost var c0 := Cells;
      ghost var all := ScanFree(Cells);
      assert |all| == capacity by {
        ScanFreeFacts(c0);
      }
      ghost var taken: seq<Seat> := [];
      var remaining := seatCount;
      bufferReps := [];
      assert Labels([]) == [];
      var i := rows - 1;
      while i >= 0
        invariant -1 <= i < rows
        invariant Valid()
        invariant 0 < remaining && |taken| + remaining == seatCount
        invariant all == taken + ScanFrom(c0, i, 0)
        invariant Cells == WithSeats(c0, taken)
        invariant forall x :: 0 <= x <= i ==> Cells[x] == c0[x]
        invariant Labelable(taken) && tickets == Issue(old(tickets), id, Labels(taken))
        invariant bufferReps == RunsOf(taken)
        invariant taken == [] || taken[|taken| - 1].row > i
      {
        bufferReps, remaining, taken := SeatRow(id, i, bufferReps, remaining, c0, all, taken, old(tickets));
        if remaining == 0 {
          assert taken == ScanFree(old(Cells))[..seatCount];
          return;
        }
        i := i - 1;
      }
      // every available cell was taken and the group is still not seated:
      // impossible, since the group is no larger than the available cells
      assert false;
    }

    /** One row of `AssignSeparate`: nothing if the row is full, otherwise
        every block of available cells of row i, left to right, until the
        group is seated. `c0` is the grid, `all` the
        scan and `ledger0` the ledger before the group; `taken` the seats the
        group already has. */
    method SeatRow(id: string, i: int, reps0: seq<Span>, remaining0: int,
                   ghost c0: seq<seq<bool>>, ghost all: seq<Seat>, ghost taken0: seq<Seat>,
                   ghost ledger0: map<string, seq<string>>)
      returns (bufferReps: seq<Span>, remaining: int, ghost taken: seq<Seat>)
      requires Valid() && 0 <= i < rows && 0 < remaining0
      requires |c0| == rows && Rect(c0, cols)
      requires all == taken0 + ScanFrom(c0, i, 0)
      requires Cells == WithSeats(c0, taken0)
      requires forall x :: 0 <= x <= i ==> Cells[x] == c0[x]
      requires Labelable(taken0) && tickets == Issue(ledger0, id, Labels(taken0))
      requires reps0 == RunsOf(taken0)
      requires taken0 == [] || taken0[|taken0| - 1].row > i
      modifies seats, seatsRemain, this`capacity, this`Cells, this`tickets
      ensures Valid()
      ensures 0 <= remaining && |taken| + remaining == |taken0| + remaining0
      ensures Cells == WithSeats(c0, taken)
      ensures forall x :: 0 <= x < i ==> Cells[x] == c0[x]
      ensures Labelable(taken) && tickets == Issue(ledger0, id, Labels(taken))
      ensures bufferReps == RunsOf(taken)
      ensures remaining > 0 ==> all == taken + ScanFrom(c0, i - 1, 0)
      ensures remaining > 0 ==> taken == [] || taken[|taken| - 1].row >= i
      ensures remaining == 0 ==> |taken| <= |all| && taken == all[..|taken|]
    {
      // a full row is skipped: its column scan starts past its last cell
      var j0 := if seatsRemain[i] == 0 then cols else 0;
      RowStart(c0, all, taken0, i, j0);
      bufferReps, remaining, taken := SeatCols(id, i, j0, reps0, remaining0, c0, all, taken0, ledger0);
    }

    /** The column loop of `SeatRow`: every block of available cells of row
        i from column j0 on, left to right, until the group is seated or the
        row ends. */
    method SeatCols(id: string, i: int, j0: int, reps0: seq<Span>, remaining0: int,
                    ghost c0: seq<seq<bool>>, ghost all: seq<Seat>, ghost taken0: seq<Seat>,
                    ghost ledger0: map<string, seq<string>>)
      returns (bufferReps: seq<Span>, remaining: int, ghost taken: seq<Seat>)
      requires Valid() && 0 <= i < rows && 0 <= j0 <= cols && 0 < remaining0
      requires |c0| == rows && Rect(c0, cols)
      requires all == taken0 + ScanFrom(c0, i, j0)
      requires Cells == WithSeats(c0, taken0)
      requires forall x :: 0 <= x <= i ==> Cells[x] == c0[x]
      requires Labelable(taken0) && tickets == Issue(ledger0, id, Labels(taken0))
      requires reps0 == RunsOf(taken0)
      requires Separated(c0, taken0, i, j0)
      requires taken0 == [] || taken0[|taken0| - 1].row >= i
      modifies seats, seatsRemain, this`capacity, this`Cells, this`tickets
      ensures Valid()
      ensures 0 <= remaining && |taken| + remaining == |taken0| + remaining0
      ensures Cells == WithSeats(c0, taken)
      ensures forall x :: 0 <= x < i ==> Cells[x] == c0[x]
      ensures Labelable(taken) && tickets == Issue(ledger0, id, Labels(taken))
      ensures bufferReps == RunsOf(taken)
      ensures remaining > 0 ==> all == taken + ScanFrom(c0, i - 1, 0)
      ensures remaining > 0 ==> taken == [] || taken[|taken| - 1].row >= i
      ensures remaining == 0 ==> |taken| <= |all| && taken == all[..|taken|]
    {
      bufferReps, remaining, taken := reps0, remaining0, taken0;
      var j := j0;
      while j < cols
        invariant j0 <= j <= cols
        invariant Valid()
        invariant 0 < remaining && |taken| + remaining == |taken0| + remaining0
        invariant all == taken + ScanFrom(c0, i, j)
        invariant Cells == WithSeats(c0, taken)
        invariant forall x :: 0 <= x < i ==> Cells[x] == c0[x]
        invariant forall y :: j <= y < cols ==> Cells[i][y] == c0[i][y]
        invariant Labelable(taken) && tickets == Issue(ledger0, id, Labels(taken))
        invariant bufferReps == RunsOf(taken)
        invariant Separated(c0, taken, i, j)
      {
        j, bufferReps, remaining, taken := SeatStep(id, i, j, bufferReps, remaining, c0, all, taken, ledger0);
        if remaining == 0 {
          ScanPrefix(all, taken, ScanFrom(c0, i, j));
          return;
        }
      }
      RowEnd(c0, all, taken, i);
    }

    /** One step of `SeatRow` at (i, j0): an unavailable cell is passed
        over, an available one starts a block. */
    method SeatStep(id: string, i: int, j0: int, reps0: seq<Span>, remaining0: int,
                    ghost c0: seq<seq<bool>>, ghost all: seq<Seat>, ghost taken0: seq<Seat>,
                    ghost ledger0: map<string, seq<string>>)
      returns (j: int, bufferReps: seq<Span>, remaining: int, ghost taken: seq<Seat>)
      requires Valid() && 0 <= i < rows && 0 <= j0 < cols && 0 < remaining0
      requires |c0| == rows && Rect(c0, cols)
      requires all == taken0 + ScanFrom(c0, i, j0)
      requires Cells == WithSeats(c0, taken0)
      requires forall y :: j0 <= y < cols ==> Cells[i][y] == c0[i][y]
      requires Labelable(taken0) && tickets == Issue(ledger0, id, Labels(taken0))
      requires reps0 == RunsOf(taken0)
      requires Separated(c0, taken0, i, j0)
      modifies seats, seatsRemain, this`capacity, this`Cells, this`tickets
      ensures Valid()
      ensures j0 < j <= cols
      ensures 0 <= remaining && |taken| + remaining == |taken0| + remaining0
      ensures all == taken + ScanFrom(c0, i, j)
      ensures Cells == WithSeats(c0, taken)
      ensures forall x :: 0 <= x < rows && x != i ==> Cells[x] == old(Cells)[x]
      ensures forall y :: j <= y < cols ==> Cells[i][y] == c0[i][y]
      ensures Labelable(taken) && tickets == Issue(ledger0, id, Labels(taken))
      ensures bufferReps == RunsOf(taken)
      ensures remaining > 0 ==> Separated(c0, taken, i, j)
    {
      if seats[i, j0] {
        SkipStep(c0, all, taken0, i, j0);
        j, bufferReps, remaining, taken := j0 + 1, reps0, remaining0, taken0;
      } else {
        j, bufferReps, remaining, taken := SeatBlock(id, i, j0, reps0, remaining0, c0, all, taken0, ledger0);
      }
    }

    /** One block of available cells of `SeatRow`, starting at (i, j0): its
        seats are taken, labelled and recorded as one span. */
    method SeatBlock(id: string, i: int, j0: int, reps0: seq<Span>, remaining0: int,
                     ghost c0: seq<seq<bool>>, ghost all: seq<Seat>, ghost taken0: seq<Seat>,
                     ghost ledger0: map<string, seq<string>>)
      returns (j: int, bufferReps: seq<Span>, remaining: int, ghost taken: seq<Seat>)
      requires Valid() && 0 <= i < rows && 0 <= j0 < cols && !Cells[i][j0] && 0 < remaining0
      requires |c0| == rows && Rect(c0, cols)
      requires all == taken0 + ScanFrom(c0, i, j0)
      requires Cells == WithSeats(c0, taken0)
      requires forall y :: j0 <= y < cols ==> Cells[i][y] == c0[i][y]
      requires Labelable(taken0) && tickets == Issue(ledger0, id, Labels(taken0))
      requires reps0 == RunsOf(taken0)
      requires Separated(c0, taken0, i, j0)
      modifies seats, seatsRemain, this`capacity, this`Cells, this`tickets
      ensures Valid()
      ensures j0 < j <= cols
      ensures 0 <= remaining && |taken| + remaining == |taken0| + remaining0
      ensures all == taken + ScanFrom(c0, i, j)
      ensures Cells == WithSeats(c0, taken)
      ensures forall x :: 0 <= x < rows && x != i ==> Cells[x] == old(Cells)[x]
      ensures forall y :: j <= y < cols ==> Cells[i][y] == c0[i][y]
      ensures Labelable(taken) && tickets == Issue(ledger0, id, Labels(taken))
      ensures bufferReps == RunsOf(taken)
      ensures remaining > 0 ==> Separated(c0, taken, i, j)
    {
      j := TakeRun(id, i, j0, remaining0);
      ghost var window := RunSeats(i, j0, j - j0);
      assert forall y :: j0 <= y < j ==> !c0[i][y];
      assert j - j0 == remaining0 || j == cols || c0[i][j];
      BlockScan(c0, all, taken0, i, j0, j);
      BlockStep(c0, taken0, reps0, i, j0, j);
      assert Cells == WithSeats(c0, taken0 + window) by {
        WithSeatsAppend(c0, taken0, window);
      }
      assert Labelable(taken0 + window) && tickets == Issue(ledger0, id, Labels(taken0 + window)) by {
        LabelsAppend(taken0, window);
        IssueConcat(ledger0, id, Labels(taken0), Labels(window));
      }
      remaining := remaining0 - (j - j0);
      taken := taken0 + window;
      bufferReps := reps0 + [Span(j0, j, i)];
    }

    /** One block of `AssignSeparate`: the sliding window from `startIdx`,
        then the cells it passed over marked unavailable. Returns the end
        (exclusive) of the block. */
    method TakeRun(id: string, i: int, startIdx: int, remaining: int) returns (endIdx: int)
      requires Valid() && 0 <= i < rows && 0 <= startIdx < cols && !Cells[i][startIdx] && 0 < remaining
      modifies seats, seatsRemain, this`capacity, this`Cells, this`tickets
      ensures Valid()
      ensures startIdx < endIdx <= cols && endIdx - startIdx <= remaining
      ensures forall y :: startIdx <= y < endIdx ==> !old(Cells)[i][y]
      ensures endIdx - startIdx == remaining || endIdx == cols || old(Cells)[i][endIdx]
      ensures Labelable(RunSeats(i, startIdx, endIdx - startIdx))
      ensures Cells == WithSeats(old(Cells), RunSeats(i, startIdx, endIdx - startIdx))
      ensures tickets == Issue(old(tickets), id, Labels(RunSeats(i, startIdx, endIdx - startIdx)))
      ensures forall y :: 0 <= y < cols && !(startIdx <= y < endIdx) ==> Cells[i][y] == old(Cells)[i][y]
      ensures forall x :: 0 <= x < rows && x != i ==> Cells[x] == old(Cells)[x]
    {
      endIdx := SlideWindow(id, i, startIdx, remaining);
      FillRow(i, startIdx, endIdx);
    }

    /** The sliding window of `AssignSeparate`: issues labels for the
        available cells of row i from `startIdx` on, stopping at an
        unavailable cell, the end of the row or after `remaining` cells.
        Returns where it stopped. */
    method SlideWindow(id: string, i: int, startIdx: int, remaining: int) returns (j: int)
      requires Shape() && 0 <= i < rows && 0 <= startIdx < cols && !Cells[i][startIdx] && 0 < remaining
      modifies this`tickets
      ensures startIdx < j <= cols && j - startIdx <= remaining
      ensures forall y :: startIdx <= y < j ==> !Cells[i][y]
      ensures j - startIdx == remaining || j == cols || Cells[i][j]
      ensures Labelable(RunSeats(i, startIdx, j - startIdx))
      ensures tickets == Issue(old(tickets), id, Labels(RunSeats(i, startIdx, j - startIdx)))
    {
      j := startIdx;
      var left := remaining;
      while j < cols && !seats[i, j] && left > 0
        invariant startIdx <= j <= cols && 0 <= left && j - startIdx + left == remaining
        invariant forall y :: startIdx <= y < j ==> !Cells[i][y]
        invariant tickets == Issue(old(tickets), id, RunLabels(i, startIdx, j - startIdx))
      {
        AddLabel(id, i, startIdx, j, old(tickets));
        j := j + 1;
        left := left - 1;
      }
      RunLabelsSeats(i, startIdx, j - startIdx);
    }

    /** Appends the labels of cells `from .. to-1` of `row`, left to right,
        to the entry of `id`. */
    method IssueLabels(id: string, row: int, from: int, to: int)
      requires Valid() && 0 <= row < rows && 0 <= from <= to
      modifies this`tickets
      ensures Labelable(RunSeats(row, from, to - from))
      ensures tickets == Issue(old(tickets), id, Labels(RunSeats(row, from, to - from)))
    {
      var i := from;
      while i < to
        invariant from <= i <= to
        invariant tickets == Issue(old(tickets), id, RunLabels(row, from, i - from))
      {
        AddLabel(id, row, from, i, old(tickets));
        i := i + 1;
      }
      RunLabelsSeats(row, from, to - from);
    }

    /** One step of the label loops: appends the label of cell (row, col) to
        the entry of `id`, so the ledger holds the labels of one more cell of
        the run that starts at `from`. */
    method AddLabel(id: string, row: int, from: int, col: int, ghost ledger: map<string, seq<string>>)
      requires 0 <= row < 26 && 0 <= from <= col
      requires tickets == Issue(ledger, id, RunLabels(row, from, col - from))
      modifies this`tickets
      ensures tickets == old(tickets)[id := Issued(old(tickets), id) + [Label(row, col)]]
      ensures tickets == Issue(ledger, id, RunLabels(row, from, col + 1 - from))
    {
      IssueConcat(ledger, id, RunLabels(row, from, col - from), [Label(row, col)]);
      tickets := tickets[id := Issued(tickets, id) + [Label(row, col)]];
    }

    /** Marks cells `from .. to-1` of `row` unavailable (all available before)
        and lowers the counters by their number. */
    method FillRow(row: int, from: int, to: int)
      requires Valid() && 0 <= row < rows && RunAt(Cells[row], from, to - from)
      modifies seats, seatsRemain, this`capacity, this`Cells
      ensures Valid()
      ensures Cells == WithSeats(old(Cells), RunSeats(row, from, to - from))
      ensures forall y :: 0 <= y < cols && !(from <= y < to) ==> Cells[row][y] == old(Cells)[row][y]
      ensures forall x :: 0 <= x < rows && x != row ==> Cells[x] == old(Cells)[x]
    {
      MarkRun(row, from, to);
      capacity := capacity - (to - from);
      seatsRemain[row] := seatsRemain[row] - (to - from);
      RunGrid(old(Cells), Cells, row, from, to - from);
    }

    /** The array part of `FillRow`: marks the cells and tracks how the
        available counts drop, leaving the counters to the caller. */
    method MarkRun(row: int, from: int, to: int)
      requires Shape() && 0 <= row < rows && RunAt(Cells[row], from, to - from)
      modifies seats, this`Cells
      ensures Shape()
      ensures forall x, y :: 0 <= x < rows && 0 <= y < cols ==>
        Cells[x][y] == (old(Cells)[x][y] || (x == row && from <= y < to))
      ensures forall x :: 0 <= x < rows && x != row ==> Cells[x] == old(Cells)[x]
      ensures FreeCount(Cells[row]) == FreeCount(old(Cells)[row]) - (to - from)
      ensures TotalFree(Cells) == TotalFree(old(Cells)) - (to - from)
    {
      var k := from;
      while k < to
        invariant from <= k <= to
        invariant Shape()
        invariant forall x, y :: 0 <= x < rows && 0 <= y < cols ==>
          Cells[x][y] == (old(Cells)[x][y] || (x == row && from <= y < k))
        invariant forall x :: 0 <= x < rows && x != row ==> Cells[x] == old(Cells)[x]
        invariant FreeCount(Cells[row]) == FreeCount(old(Cells)[row]) - (k - from)
        invariant TotalFree(Cells) == TotalFree(old(Cells)) - (k - from)
      {
        assert FreeCount(Cells[row][k := true]) == FreeCount(Cells[row]) - 1 by {
          FreeCountSet(Cells[row], k);
        }
        assert TotalFree(Cells[row := Cells[row][k := true]]) == TotalFree(Cells) - 1 by {
          TotalFreeSet(Cells, row, Cells[row][k := true]);
        }
        SetCell(row, k);
        k := k + 1;
      }
    }

    /** One cell of `Arrays.fill`: marks cell (r, c) unavailable in the array. */
    method SetCell(r: int, c: int)
      requires Shape() && 0 <= r < rows && 0 <= c < cols
      modifies seats, this`Cells
      ensures Shape()
      ensures Cells == old(Cells)[r := old(Cells)[r][c := true]]
    {
      seats[r, c] := true;
      Cells := Cells[r := Cells[r][c := true]];
      forall x, y | 0 <= x < rows && 0 <= y < cols
        ensures seats[x, y] == Cells[x][y]
      {
        if x != r || y != c {
          assert seats[x, y] == old(seats[x, y]);
        }
      }
    }

    /** Lays the buffers of every span of `bufferReps`. */
    method SeatBuffer(bufferReps: seq<Span>)
      requires Valid()
      requires AllInGrid(bufferReps, rows, cols)
      modifies seats, seatsRemain, this`capacity, this`Cells
      ensures Valid()
      ensures Cells == Buffered(old(Cells), bufferReps, rowBuffer, colBuffer)
    {
      SameGrid(Buffered(Cells, [], rowBuffer, colBuffer), Cells);
      var k := 0;
      while k < |bufferReps|
        invariant 0 <= k <= |bufferReps|
        invariant Valid()
        invariant Cells == Buffered(old(Cells), bufferReps[..k], rowBuffer, colBuffer)
      {
        ghost var before := Cells;
        BufferSpan(bufferReps[k]);
        BufferedAppend(old(Cells), bufferReps[..k], [bufferReps[k]], rowBuffer, colBuffer);
        assert bufferReps[..k] + [bufferReps[k]] == bufferReps[..k + 1];
        k := k + 1;
      }
      assert bufferReps[..k] == bufferReps;
    }

    /** Lays the buffer of one span: `rowBuffer` rows above and below it over
        its columns, then `colBuffer` cells left and right of it in its row,
        each clipped to the grid. */
    method BufferSpan(sp: Span)
      requires Valid() && SpanInGrid(sp, rows, cols)
      modifies seats, seatsRemain, this`capacity, this`Cells
      ensures Valid()
      ensures Cells == Buffered(old(Cells), [sp], rowBuffer, colBuffer)
    {
      BufferRows(sp);
      BufferCols(sp);
      ghost var want := Buffered(old(Cells), [sp], rowBuffer, colBuffer);
      forall x, y | 0 <= x < rows && 0 <= y < cols
        ensures Cells[x][y] == want[x][y]
      {
        assert [sp][..0] == [];
        assert Covered([sp], rowBuffer, colBuffer, x, y) == InZone(sp, rowBuffer, colBuffer, x, y);
      }
      SameGrid(Cells, want);
    }

    /** The rows above and below a span, over its columns. */
    method BufferRows(sp: Span)
      requires Valid() && SpanInGrid(sp, rows, cols)
      modifies seats, seatsRemain, this`capacity, this`Cells
      ensures Valid()
      ensures forall x, y :: 0 <= x < rows && 0 <= y < cols ==>
        Cells[x][y] == (old(Cells)[x][y] || RowZone(sp, rowBuffer, x, y))
    {
      var startIdx, endIdx, row := sp.start, sp.end, sp.row;
      var rowLimit := if rowBuffer > 0 then rowBuffer else 0;
      var r := 1;
      while r <= rowBuffer
        invariant 1 <= r <= rowLimit + 1
        invariant Valid()
        invariant forall x, y :: 0 <= x < rows && 0 <= y < cols ==>
          Cells[x][y] == (old(Cells)[x][y] || RowZone(sp, r - 1, x, y))
      {
        var i := startIdx;
        while i < endIdx
          invariant startIdx <= i <= endIdx
          invariant Valid()
          invariant forall x, y :: 0 <= x < rows && 0 <= y < cols ==>
            Cells[x][y] == (old(Cells)[x][y] || RowZone(sp, r - 1, x, y) ||
                            ((x == row - r || x == row + r) && startIdx <= y < i))
        {
          if row - r >= 0 {
            Occupy(row - r, i);
          }
          if row + r < rows {
            Occupy(row + r, i);
          }
          i := i + 1;
        }
        r := r + 1;
      }
    }

    /** The cells left and right of a span, in its row. */
    method BufferCols(sp: Span)
      requires Valid() && SpanInGrid(sp, rows, cols)
      modifies seats, seatsRemain, this`capacity, this`Cells
      ensures Valid()
      ensures forall x, y :: 0 <= x < rows && 0 <= y < cols ==>
        Cells[x][y] == (old(Cells)[x][y] || ColZone(sp, colBuffer, x, y))
    {
      var startIdx, endIdx, row := sp.start, sp.end, sp.row;
      var colLimit := if colBuffer > 0 then colBuffer else 0;
      var i := 1;
      while i <= colBuffer
        invariant 1 <= i <= colLimit + 1
        invariant Valid()
        invariant forall x, y :: 0 <= x < rows && 0 <= y < cols ==>
          Cells[x][y] == (old(Cells)[x][y] || ColZone(sp, i - 1, x, y))
      {
        if startIdx - i >= 0 {
          Occupy(row, startIdx - i);
        }
        if endIdx + i - 1 < cols {
          Occupy(row, endIdx + i - 1);
        }
        i := i + 1;
      }
    }

    /** Marks cell (r, c) unavailable; the counters drop only if it was available. */
    method Occupy(r: int, c: int)
      requires Valid() && 0 <= r < rows && 0 <= c < cols
      modifies seats, seatsRemain, this`capacity, this`Cells
      ensures Valid()
      ensures Cells == WithSeat(old(Cells), Seat(r, c))
      ensures forall x, y :: 0 <= x < rows && 0 <= y < cols ==>
        Cells[x][y] == (old(Cells)[x][y] || (x == r && y == c))
    {
      if !seats[r, c] {
        Take(r, c);
      } else {
        WithSeatTaken(Cells, r, c);
      }
    }

    /** Marks the available cell (r, c) unavailable and lowers the counters of
        its row and of the grid by one. */
    method Take(r: int, c: int)
      requires Valid() && 0 <= r < rows && 0 <= c < cols && !Cells[r][c]
      modifies seats, seatsRemain, this`capacity, this`Cells
      ensures Valid()
      ensures Cells == old(Cells)[r := old(Cells)[r][c := true]]
    {
      FreeCountSet(Cells[r], c);
      TotalFreeSet(Cells, r, Cells[r][c := true]);
      SetCell(r, c);
      seatsRemain[r] := seatsRemain[r] - 1;
      capacity := capacity - 1;
    }
  }

  /** Marking an unavailable cell changes nothing. */
  lemma {:induction false} WithSeatTaken(cells: seq<seq<bool>>, r: int, c: int)
    requires 0 <= r < |cells| && 0 <= c < |cells[r]| && cells[r][c]
    ensures WithSeat(cells, Seat(r, c)) == cells
    ensures cells[r := cells[r][c := true]] == cells
  {
    assert cells[r][c := true] == cells[r];
  }

  /** Passing over an unavailable cell (i, j) keeps the scan and the
      separation facts of the split placement. */
  lemma {:induction false} SkipStep(cells: seq<seq<bool>>, all: seq<Seat>, taken: seq<Seat>, i: int, j: int)
    requires 0 <= i < |cells| && 0 <= j < |cells[i]| && cells[i][j]
    requires all == taken + ScanFrom(cells, i, j)
    requires Separated(cells, taken, i, j)
    ensures all == taken + ScanFrom(cells, i, j + 1)
    ensures Separated(cells, taken, i, j + 1)
  {
    var rest := ScanFrom(cells, i, j + 1);
    assert ScanFrom(cells, i, j) == rest by {
      ScanStep(cells, i, j);
      assert [] + rest == rest;
    }
  }

  /** Where the column scan of row i starts: at column 0, or past the last
      cell when the row has no available cell, which adds nothing to the
      scan. */
  lemma {:induction false} RowStart(cells: seq<seq<bool>>, all: seq<Seat>, taken: seq<Seat>, i: int, j0: int)
    requires 0 <= i < |cells| && (j0 == 0 || (j0 == |cells[i]| && FreeCount(cells[i]) == 0))
    requires all == taken + ScanFrom(cells, i, 0)
    requires taken == [] || taken[|taken| - 1].row > i
    ensures all == taken + ScanFrom(cells, i, j0)
    ensures Separated(cells, taken, i, j0)
  {
    if j0 != 0 {
      assert cells[i][0..] == cells[i];
      ScanSkipFull(cells, i, 0);
    }
  }

  /** At the end of row i the scan goes on with row i - 1. */
  lemma {:induction false} RowEnd(cells: seq<seq<bool>>, all: seq<Seat>, taken: seq<Seat>, i: int)
    requires 0 <= i < |cells|
    requires all == taken + ScanFrom(cells, i, |cells[i]|)
    ensures all == taken + ScanFrom(cells, i - 1, 0)
  {
  }

  /** The seats taken so far are a prefix of the scan. */
  lemma {:induction false} ScanPrefix(all: seq<Seat>, taken: seq<Seat>, rest: seq<Seat>)
    requires all == taken + rest
    ensures |taken| <= |all| && taken == all[..|taken|]
  {
  }

  /** The last seat taken so far lies before (i, j) in scan order, and when it
      is the cell just left of (i, j), the block it ended stopped at an
      unavailable cell or the end of the row. */
  ghost predicate Separated(cells: seq<seq<bool>>, taken: seq<Seat>, i: int, j: int)
    requires 0 <= i < |cells| && 0 <= j <= |cells[i]|
  {
    taken == [] || taken[|taken| - 1].row > i ||
    (taken[|taken| - 1].row == i && taken[|taken| - 1].col < j &&
     (taken[|taken| - 1].col == j - 1 ==> j == |cells[i]| || cells[i][j]))
  }

  /** Bookkeeping for one block of the split placement: the block of
      available cells `s .. e-1` of row i adds one span, and the seats taken
      stay separated from what follows. */
  lemma {:induction false} BlockStep(c0: seq<seq<bool>>, taken: seq<Seat>, reps: seq<Span>, i: int, s: int, e: int)
    requires 0 <= i < |c0| && 0 <= s < e <= |c0[i]| && !c0[i][s]
    requires Separated(c0, taken, i, s)
    requires reps == RunsOf(taken)
    ensures reps + [Span(s, e, i)] == RunsOf(taken + RunSeats(i, s, e - s))
    ensures (e == |c0[i]| || c0[i][e]) ==> Separated(c0, taken + RunSeats(i, s, e - s), i, e)
  {
    RunsOfAppendRun(taken, i, s, e - s);
    var window := RunSeats(i, s, e - s);
    assert (taken + window)[|taken + window| - 1] == Seat(i, e - 1);
  }

  /** The block of available cells `s .. e-1` of row i is the next part of the scan. */
  lemma {:induction false} BlockScan(c0: seq<seq<bool>>, all: seq<Seat>, taken: seq<Seat>, i: int, s: int, e: int)
    requires 0 <= i < |c0| && 0 <= s <= e <= |c0[i]|
    requires forall y :: s <= y < e ==> !c0[i][y]
    requires all == taken + ScanFrom(c0, i, s)
    ensures all == (taken + RunSeats(i, s, e - s)) + ScanFrom(c0, i, e)
  {
    var window := RunSeats(i, s, e - s);
    ScanRun(c0, i, s, e);
    assert taken + (window + ScanFrom(c0, i, e)) == (taken + window) + ScanFrom(c0, i, e);
  }

  /** The labels of a run of cells are the labels of its seats. */
  lemma {:induction false} RunLabelsSeats(row: int, from: int, n: nat)
    requires 0 <= row < 26 && 0 <= from
    ensures Labelable(RunSeats(row, from, n))
    ensures Labels(RunSeats(row, from, n)) == RunLabels(row, from, n)
  {
    if n > 0 {
      RunLabelsSeats(row, from, n - 1);
      var all := RunSeats(row, from, n);
      assert all[..n - 1] == RunSeats(row, from, n - 1);
      assert all[n - 1] == Seat(row, from + n - 1);
    }
  }

  /** Every span of `spans` lies in the grid. */
  predicate AllInGrid(spans: seq<Span>, rows: int, cols: int)
  {
    forall k :: 0 <= k < |spans| ==> SpanInGrid(spans[k], rows, cols)
  }

  /** Every span of every list of `lists` lies in the grid. */
  predicate ListsInGrid(lists: seq<seq<Span>>, rows: int, cols: int)
  {
    forall k :: 0 <= k < |lists| ==> AllInGrid(lists[k], rows, cols)
  }

  /** The request loop consumes the groups of a request one at a time: the
      groups still to place are the next group followed by the groups of
      the rest of the request on the grid that group leaves. */
  lemma {:induction false} PlacementsStep(c0: seq<seq<bool>>, n: int, cols: int, done: seq<Group>, numSeats: int, grp: Group,
                       done': seq<Group>, numSeats': int)
    requires 1 <= cols && 0 < numSeats
    requires Placements(c0, n, cols) == done + Placements(WithSeats(c0, AllSeats(done)), numSeats, cols)
    requires grp == GroupPlacement(WithSeats(c0, AllSeats(done)), if numSeats < cols then numSeats else cols)
    requires done' == done + [grp] && numSeats' == numSeats - cols
    ensures Placements(c0, n, cols) == done' + Placements(WithSeats(c0, AllSeats(done')), numSeats', cols)
  {
    var cells := WithSeats(c0, AllSeats(done));
    var next := WithSeats(cells, grp.seats);
    assert AllSeats(done') == AllSeats(done) + grp.seats by {
      AllSeatsAppend(done, [grp]);
      assert AllSeats([grp]) == grp.seats + AllSeats([]);
    }
    assert WithSeats(c0, AllSeats(done')) == next by {
      WithSeatsAppend(c0, AllSeats(done), grp.seats);
    }
    var rest := Placements(next, numSeats', cols);
    assert Placements(cells, numSeats, cols) == [grp] + rest by {
      PlacementsCons(cells, numSeats, cols);
      var first := GroupPlacement(cells, if numSeats < cols then numSeats else cols);
      assert first == grp;
      assert WithSeats(cells, first.seats) == next;
    }
    AppendAssoc(done, grp, rest);
  }

  /** Appending one element and then a sequence is appending both at once. */
  lemma {:induction false} AppendAssoc<T>(a: seq<T>, x: T, b: seq<T>)
    ensures a + ([x] + b) == (a + [x]) + b
  {
  }

  /** The span lists of the request loop after one more group: its spans join
      the together list if it sat together and form a list of their own if not. */
  lemma {:induction false} SpansStep(done: seq<Group>, grp: Group, st: seq<Span>, ss: seq<seq<Span>>, rows: int, cols: int)
    requires st == TogetherSpans(done) && Flatten(ss) == SeparateSpans(done)
    requires AllInGrid(st, rows, cols) && ListsInGrid(ss, rows, cols) && AllInGrid(grp.spans, rows, cols)
    ensures var st' := if grp.together then st + grp.spans else st;
      var ss' := if grp.together then ss else ss + [grp.spans];
      st' == TogetherSpans(done + [grp]) && Flatten(ss') == SeparateSpans(done + [grp]) &&
      AllInGrid(st', rows, cols) && ListsInGrid(ss', rows, cols)
  {
    assert (done + [grp])[..|done|] == done;
    assert (ss + [grp.spans])[..|ss|] == ss;
    if grp.together {
      assert st + grp.spans == TogetherSpans(done + [grp]);
      var st' := st + grp.spans;
      forall k | 0 <= k < |st'| ensures SpanInGrid(st'[k], rows, cols) {
        if k >= |st| { assert st'[k] == grp.spans[k - |st|]; }
      }
    } else {
      assert st + [] == st;
      assert SeparateSpans(done + [grp]) == SeparateSpans(done) + grp.spans;
    }
  }

  /** Bookkeeping for one more group: the grid, the ledger and the labels of
      `done + [grp]` follow from those of `done`. */
  lemma {:induction false} GroupStep(done: seq<Group>, grp: Group, cells: seq<seq<bool>>, ledger: map<string, seq<string>>, id: string)
    requires Labelable(AllSeats(done)) && Labelable(grp.seats)
    ensures AllSeats(done + [grp]) == AllSeats(done) + grp.seats
    ensures AllSpans(done + [grp]) == AllSpans(done) + grp.spans
    ensures Labelable(AllSeats(done + [grp]))
    ensures WithSeats(cells, AllSeats(done + [grp])) == WithSeats(WithSeats(cells, AllSeats(done)), grp.seats)
    ensures Issue(ledger, id, Labels(AllSeats(done + [grp]))) ==
            Issue(Issue(ledger, id, Labels(AllSeats(done))), id, Labels(grp.seats))
  {
    var seated := AllSeats(done);
    assert AllSeats(done + [grp]) == seated + grp.seats by {
      AllSeatsAppend(done, [grp]);
      assert AllSeats([grp]) == grp.seats + AllSeats([]);
      assert grp.seats + [] == grp.seats;
    }
    assert AllSpans(done + [grp]) == AllSpans(done) + grp.spans by {
      AllSpansAppend(done, [grp]);
      assert AllSpans([grp]) == grp.spans + AllSpans([]);
      assert grp.spans + [] == grp.spans;
    }
    LabelsAppend(seated, grp.seats);
    WithSeatsAppend(cells, seated, grp.seats);
    IssueConcat(ledger, id, Labels(seated), Labels(grp.seats));
  }

  /** The tickets of an accepted request: exactly `n` labels are appended to
      the entry of `id`, no two alike, and each names a cell that was
      available before the request and is unavailable after it. */
  lemma {:induction false} AcceptedTickets(cells: seq<seq<bool>>, n: int, cols: int, rowBuffer: int, colBuffer: int,
                                           ledger: map<string, seq<string>>, id: string)
    requires |cells| <= 26 && 1 <= cols && 1 <= n <= TotalFree(cells)
    ensures var seated := AllSeats(Placements(cells, n, cols));
      Labelable(seated) && |seated| == n &&
      var labels := Labels(seated);
      var after := Buffered(WithSeats(cells, seated), AllSpans(Placements(cells, n, cols)), rowBuffer, colBuffer);
      Issued(Issue(ledger, id, labels), id) == Issued(ledger, id) + labels &&
      (forall a, b :: 0 <= a < b < n ==> labels[a] != labels[b]) &&
      forall k :: 0 <= k < n ==>
        labels[k] == Label(seated[k].row, seated[k].col) &&
        IsFree(cells, seated[k]) && after[seated[k].row][seated[k].col]
  {
    var groups := Placements(cells, n, cols);
    var seated := AllSeats(groups);
    PlacementsSeats(cells, n, cols);
    FreshLabels(cells, seated);
    IssueEffect(ledger, id, Labels(seated));
    AcceptedOccupancy(cells, seated, AllSpans(groups), rowBuffer, colBuffer);
  }

  /** Distinct available seats of a grid of at most 26 rows get one label
      each, in order, and no two of them the same. */
  lemma {:induction false} FreshLabels(cells: seq<seq<bool>>, seats: seq<Seat>)
    requires |cells| <= 26 && FreshSeats(cells, seats)
    ensures Labelable(seats)
    ensures forall a, b :: 0 <= a < b < |seats| ==> Labels(seats)[a] != Labels(seats)[b]
    ensures forall k :: 0 <= k < |seats| ==> Labels(seats)[k] == Label(seats[k].row, seats[k].col)
  {
    assert Labelable(seats) by {
      forall k | 0 <= k < |seats| ensures 0 <= seats[k].row < 26 && 0 <= seats[k].col {
        assert IsFree(cells, seats[k]);
      }
    }
    LabelsDistinct(seats);
    forall k | 0 <= k < |seats|
      ensures Labels(seats)[k] == Label(seats[k].row, seats[k].col)
    {
      LabelsAt(seats, k);
    }
  }
}
