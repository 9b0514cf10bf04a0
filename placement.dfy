/** Where the seats of one request go, as functions of the grid before the
    request: contiguous placement (bottom row first, leftmost run), the split
    fallback (bottom-to-top, left-to-right scan), the spans recorded for
    buffering and the buffer zones themselves. The methods of class
    Assigner.SeatAssigner are proved to compute exactly these. */
module Placement {
  import opened Grid

  /** Cells `s .. s+n-1` of `row` exist and are all available (n >= 1). */
  predicate RunAt(row: seq<bool>, s: int, n: int)
  {
    1 <= n && 0 <= s && s + n <= |row| && forall k :: s <= k < s + n ==> !row[k]
  }

  /** The smallest start `>= s` of an available run of `n` cells, or -1. */
  function LeftmostRunFrom(row: seq<bool>, n: int, s: nat): (r: int)
    decreases |row| - s
    ensures r == -1 || (s <= r && RunAt(row, r, n))
    ensures forall t :: s <= t && (r == -1 || t < r) ==> !RunAt(row, t, n)
  {
    if n < 1 || s + n > |row| then -1
    else if RunAt(row, s, n) then s
    else LeftmostRunFrom(row, n, s + 1)
  }

  /** The start of the leftmost available run of `n` cells of `row`, or -1 when there is none. */
  function LeftmostRun(row: seq<bool>, n: int): (r: int)
    ensures r == -1 || RunAt(row, r, n)
    ensures forall t :: 0 <= t && (r == -1 || t < r) ==> !RunAt(row, t, n)
  {
    LeftmostRunFrom(row, n, 0)
  }

  /** The highest-index row among `0 .. i` that has an available run of `n` cells, or -1. */
  function HighestRunRow(cells: seq<seq<bool>>, n: int, i: int): (r: int)
    requires -1 <= i < |cells|
    decreases i + 1
    ensures -1 <= r <= i
    ensures r >= 0 ==> LeftmostRun(cells[r], n) >= 0
    ensures forall k :: 0 <= k <= i && r < k ==> LeftmostRun(cells[k], n) == -1
  {
    if i < 0 then -1
    else if LeftmostRun(cells[i], n) >= 0 then i
    else HighestRunRow(cells, n, i - 1)
  }

  /** The `n` cells of `row` from column `start` on, left to right. */
  function RunSeats(row: int, start: int, n: nat): (seats: seq<Seat>)
    ensures |seats| == n
  {
    seq(n, k => Seat(row, start + k))
  }

  /** Occupying a run one more cell long occupies one more cell at its end. */
  lemma {:induction false} RunSeatsStep(cells: seq<seq<bool>>, row: int, start: int, n: nat)
    ensures RunSeats(row, start, n + 1) == RunSeats(row, start, n) + [Seat(row, start + n)]
    ensures WithSeats(cells, RunSeats(row, start, n + 1)) ==
            WithSeat(WithSeats(cells, RunSeats(row, start, n)), Seat(row, start + n))
  {
    assert RunSeats(row, start, n + 1)[..n] == RunSeats(row, start, n);
  }

  /** A grid that differs from `cells` exactly in cells `start .. start+n-1` of
      `row`, which it marks unavailable, is `cells` with that run occupied. */
  lemma {:induction false} RunGrid(cells: seq<seq<bool>>, after: seq<seq<bool>>, row: int, start: int, n: nat)
    requires |after| == |cells| && forall x :: 0 <= x < |cells| ==> |after[x]| == |cells[x]|
    requires forall x, y :: 0 <= x < |cells| && 0 <= y < |cells[x]| ==>
      after[x][y] == (cells[x][y] || (x == row && start <= y < start + n))
    ensures after == WithSeats(cells, RunSeats(row, start, n))
  {
    var w := WithSeats(cells, RunSeats(row, start, n));
    forall x, y | 0 <= x < |cells| && 0 <= y < |cells[x]|
      ensures after[x][y] == w[x][y]
    {
      WithSeatsAt(cells, RunSeats(row, start, n), x, y);
      if x == row && start <= y < start + n {
        assert RunSeats(row, start, n)[y - start] == Seat(x, y);
      }
    }
    SameGrid(after, w);
  }

  /** A run is its first cell followed by the rest of the run. */
  lemma {:induction false} RunSeatsCons(row: int, start: int, n: nat)
    requires 1 <= n
    ensures RunSeats(row, start, n) == [Seat(row, start)] + RunSeats(row, start + 1, n - 1)
  {
  }

  /** The available cells in scan order from (i, j): columns j.. of row i left to
      right, then every column of rows i-1, i-2, .., 0. */
  function ScanFrom(cells: seq<seq<bool>>, i: int, j: nat): seq<Seat>
    requires i < |cells|
    requires 0 <= i ==> j <= |cells[i]|
    decreases i + 1, if 0 <= i then |cells[i]| - j else 0
  {
    if i < 0 then []
    else if j == |cells[i]| then ScanFrom(cells, i - 1, 0)
    else (if cells[i][j] then [] else [Seat(i, j)]) + ScanFrom(cells, i, j + 1)
  }

  /** All available cells, bottom row first, each row left to right. */
  function ScanFree(cells: seq<seq<bool>>): seq<Seat>
  {
    ScanFrom(cells, |cells| - 1, 0)
  }

  /** Every cell of the scan from (i, j) is available and at or after (i, j). */
  lemma {:induction false} ScanFromOrder(cells: seq<seq<bool>>, i: int, j: nat)
    requires i < |cells|
    requires 0 <= i ==> j <= |cells[i]|
    decreases i + 1, if 0 <= i then |cells[i]| - j else 0
    ensures forall k :: 0 <= k < |ScanFrom(cells, i, j)| ==>
      IsFree(cells, ScanFrom(cells, i, j)[k]) &&
      (ScanFrom(cells, i, j)[k].row < i || (ScanFrom(cells, i, j)[k].row == i && j <= ScanFrom(cells, i, j)[k].col))
  {
    if i < 0 {
    } else if j == |cells[i]| {
      ScanFromOrder(cells, i - 1, 0);
    } else {
      ScanFromOrder(cells, i, j + 1);
      var rest := ScanFrom(cells, i, j + 1);
      if !cells[i][j] {
        var s := [Seat(i, j)] + rest;
        assert ScanFrom(cells, i, j) == s;
        forall k | 0 < k < |s| ensures s[k] == rest[k - 1] { }
      } else {
        assert ScanFrom(cells, i, j) == rest;
      }
    }
  }

  /** No cell occurs twice in the scan from (i, j). */
  lemma {:induction false} ScanFromDistinct(cells: seq<seq<bool>>, i: int, j: nat)
    requires i < |cells|
    requires 0 <= i ==> j <= |cells[i]|
    decreases i + 1, if 0 <= i then |cells[i]| - j else 0
    ensures Distinct(ScanFrom(cells, i, j))
  {
    if i < 0 {
    } else if j == |cells[i]| {
      ScanFromDistinct(cells, i - 1, 0);
    } else {
      ScanFromDistinct(cells, i, j + 1);
      ScanConsDistinct(cells, i, j);
    }
  }

  /** Cell (i, j) put in front of the scan from (i, j + 1) occurs there once. */
  lemma {:induction false} ScanConsDistinct(cells: seq<seq<bool>>, i: int, j: nat)
    requires 0 <= i < |cells| && j < |cells[i]|
    requires Distinct(ScanFrom(cells, i, j + 1))
    ensures Distinct(ScanFrom(cells, i, j))
  {
    var rest := ScanFrom(cells, i, j + 1);
    if !cells[i][j] {
      ScanFromOrder(cells, i, j + 1);
      forall k | 0 <= k < |rest| ensures rest[k] !in [Seat(i, j)] {
        assert rest[k].row < i || (rest[k].row == i && j + 1 <= rest[k].col);
      }
      DistinctConcat([Seat(i, j)], rest);
      assert ScanFrom(cells, i, j) == [Seat(i, j)] + rest;
    } else {
      assert ScanFrom(cells, i, j) == rest;
    }
  }

  /** The scan from (i, j) is as long as the number of available cells at or
      after (i, j). */
  lemma {:induction false} ScanFromCount(cells: seq<seq<bool>>, i: int, j: nat)
    requires i < |cells|
    requires 0 <= i ==> j <= |cells[i]|
    decreases i + 1, if 0 <= i then |cells[i]| - j else 0
    ensures |ScanFrom(cells, i, j)| == (if i < 0 then 0 else FreeCount(cells[i][j..]) + TotalFree(cells[..i]))
  {
    if i < 0 {
    } else if j == |cells[i]| {
      ScanFromCount(cells, i - 1, 0);
      assert cells[..i + 1][..i] == cells[..i];
      if i > 0 {
        assert cells[..i][..i - 1] == cells[..i - 1];
        assert cells[i - 1][0..] == cells[i - 1];
      }
    } else {
      ScanFromCount(cells, i, j + 1);
      assert cells[i][j..][1..] == cells[i][j + 1..];
    }
  }

  /** A row with no available cell from column j on adds nothing to the scan. */
  lemma {:induction false} ScanSkipFull(cells: seq<seq<bool>>, i: int, j: nat)
    requires 0 <= i < |cells| && j <= |cells[i]|
    requires FreeCount(cells[i][j..]) == 0
    decreases |cells[i]| - j
    ensures ScanFrom(cells, i, j) == ScanFrom(cells, i - 1, 0)
  {
    if j < |cells[i]| {
      assert cells[i][j..][1..] == cells[i][j + 1..];
      ScanSkipFull(cells, i, j + 1);
    }
  }

  /** A block of available cells `j .. e-1` of row i comes first in the scan from (i, j). */
  lemma {:induction false} ScanRun(cells: seq<seq<bool>>, i: int, j: nat, e: nat)
    requires 0 <= i < |cells| && j <= e <= |cells[i]|
    requires forall k :: j <= k < e ==> !cells[i][k]
    decreases e - j
    ensures ScanFrom(cells, i, j) == RunSeats(i, j, e - j) + ScanFrom(cells, i, e)
  {
    if j == e {
      assert RunSeats(i, j, 0) == [];
    } else {
      var rest := ScanFrom(cells, i, e);
      var tail := RunSeats(i, j + 1, e - j - 1);
      assert ScanFrom(cells, i, j + 1) == tail + rest by {
        ScanRun(cells, i, j + 1, e);
      }
      assert ScanFrom(cells, i, j) == [Seat(i, j)] + ScanFrom(cells, i, j + 1) by {
        ScanStep(cells, i, j);
      }
      assert RunSeats(i, j, e - j) == [Seat(i, j)] + tail by {
        RunSeatsCons(i, j, e - j);
      }
      assert [Seat(i, j)] + (tail + rest) == ([Seat(i, j)] + tail) + rest;
    }
  }

  /** One step of the scan within a row. */
  lemma {:induction false} ScanStep(cells: seq<seq<bool>>, i: int, j: nat)
    requires 0 <= i < |cells| && j < |cells[i]|
    ensures ScanFrom(cells, i, j) == (if cells[i][j] then [] else [Seat(i, j)]) + ScanFrom(cells, i, j + 1)
  {
  }

  /** The whole scan lists every available cell once. */
  lemma {:induction false} ScanFreeFacts(cells: seq<seq<bool>>)
    ensures Distinct(ScanFree(cells)) && |ScanFree(cells)| == TotalFree(cells)
    ensures forall k :: 0 <= k < |ScanFree(cells)| ==> IsFree(cells, ScanFree(cells)[k])
  {
    if |cells| == 0 {
    } else {
      ScanFromOrder(cells, |cells| - 1, 0);
      ScanFromDistinct(cells, |cells| - 1, 0);
      ScanFromCount(cells, |cells| - 1, 0);
      var n := |cells| - 1;
      assert cells[n][0..] == cells[n];
      assert cells[..n + 1] == cells;
    }
  }

  /** Seat `s` comes before seat `t` in scan order: in a lower row (higher
      index), or further left in the same row. */
  predicate ScanBefore(s: Seat, t: Seat)
  {
    s.row > t.row || (s.row == t.row && s.col < t.col)
  }

  /** The seats are in strictly increasing scan order. */
  predicate ScanOrdered(seats: seq<Seat>)
  {
    forall a, b :: 0 <= a < b < |seats| ==> ScanBefore(seats[a], seats[b])
  }

  /** The scan from (i, j) lists its cells in scan order. */
  lemma {:induction false} ScanFromOrdered(cells: seq<seq<bool>>, i: int, j: nat)
    requires i < |cells|
    requires 0 <= i ==> j <= |cells[i]|
    decreases i + 1, if 0 <= i then |cells[i]| - j else 0
    ensures ScanOrdered(ScanFrom(cells, i, j))
  {
    if i < 0 {
    } else if j == |cells[i]| {
      ScanFromOrdered(cells, i - 1, 0);
    } else {
      ScanFromOrdered(cells, i, j + 1);
      ScanConsOrdered(cells, i, j);
    }
  }

  /** Cell (i, j) put in front of the scan from (i, j + 1) comes before all of it. */
  lemma {:induction false} ScanConsOrdered(cells: seq<seq<bool>>, i: int, j: nat)
    requires 0 <= i < |cells| && j < |cells[i]|
    requires ScanOrdered(ScanFrom(cells, i, j + 1))
    ensures ScanOrdered(ScanFrom(cells, i, j))
  {
    var rest := ScanFrom(cells, i, j + 1);
    if !cells[i][j] {
      ScanFromOrder(cells, i, j + 1);
      var all := [Seat(i, j)] + rest;
      assert ScanFrom(cells, i, j) == all;
      forall a, b | 0 <= a < b < |all| ensures ScanBefore(all[a], all[b]) {
        assert all[b] == rest[b - 1];
        if a > 0 {
          assert all[a] == rest[a - 1];
        }
      }
    } else {
      assert ScanFrom(cells, i, j) == rest;
    }
  }

  /** Every available cell at or after (i, j) in scan order is in the scan from (i, j). */
  lemma {:induction false} ScanFromComplete(cells: seq<seq<bool>>, i: int, j: nat, s: Seat)
    requires i < |cells|
    requires 0 <= i ==> j <= |cells[i]|
    requires IsFree(cells, s) && (s.row < i || (s.row == i && j <= s.col))
    decreases i + 1, if 0 <= i then |cells[i]| - j else 0
    ensures s in ScanFrom(cells, i, j)
  {
    if j == |cells[i]| {
      ScanFromComplete(cells, i - 1, 0, s);
    } else {
      ScanStep(cells, i, j);
      if s != Seat(i, j) {
        ScanFromComplete(cells, i, j + 1, s);
      }
    }
  }

  /** The split scan lists every available cell, in bottom-to-top,
      left-to-right order. */
  lemma {:induction false} ScanFreeOrder(cells: seq<seq<bool>>)
    ensures ScanOrdered(ScanFree(cells))
    ensures forall s :: IsFree(cells, s) ==> s in ScanFree(cells)
  {
    ScanFromOrdered(cells, |cells| - 1, 0);
    forall s | IsFree(cells, s) ensures s in ScanFree(cells) {
      ScanFromComplete(cells, |cells| - 1, 0, s);
    }
  }

  /** The spans of a seat sequence: consecutive seats of one row with adjacent
      columns share a span; every other step starts a new span. */
  function RunsOf(seats: seq<Seat>): seq<Span>
  {
    if seats == [] then []
    else
      var runs := RunsOf(seats[..|seats| - 1]);
      var s := seats[|seats| - 1];
      if runs != [] && runs[|runs| - 1].row == s.row && runs[|runs| - 1].end == s.col
      then runs[..|runs| - 1] + [Span(runs[|runs| - 1].start, s.col + 1, s.row)]
      else runs + [Span(s.col, s.col + 1, s.row)]
  }

  /** A seat that does not continue the last seat starts a new span. */
  lemma {:induction false} RunsOfAppendNew(seats: seq<Seat>, s: Seat)
    requires seats == [] || seats[|seats| - 1].row != s.row || seats[|seats| - 1].col + 1 != s.col
    ensures RunsOf(seats + [s]) == RunsOf(seats) + [Span(s.col, s.col + 1, s.row)]
  {
    var all := seats + [s];
    assert all[..|all| - 1] == seats;
    if seats != [] {
      RunsOfLast(seats);
    }
  }

  /** A seat right after the last seat, in the same row, extends the last span. */
  lemma {:induction false} RunsOfAppendNext(seats: seq<Seat>, s: Seat, front: seq<Span>, start: int)
    requires RunsOf(seats) == front + [Span(start, s.col, s.row)]
    ensures RunsOf(seats + [s]) == front + [Span(start, s.col + 1, s.row)]
  {
    var all := seats + [s];
    assert all[..|all| - 1] == seats;
    var runs := front + [Span(start, s.col, s.row)];
    assert runs[..|runs| - 1] == front;
  }

  /** Appending a block of adjacent seats that does not continue the last seat
      adds exactly one span. */
  lemma {:induction false} RunsOfAppendRun(seats: seq<Seat>, row: int, start: int, n: nat)
    requires 1 <= n
    requires seats == [] || seats[|seats| - 1].row != row || seats[|seats| - 1].col + 1 != start
    ensures RunsOf(seats + RunSeats(row, start, n)) == RunsOf(seats) + [Span(start, start + n, row)]
  {
    var s := Seat(row, start + n - 1);
    var run := RunSeats(row, start, n - 1);
    assert RunSeats(row, start, n) == run + [s];
    assert seats + (run + [s]) == seats + run + [s];
    if n == 1 {
      assert seats + RunSeats(row, start, 0) == seats;
      RunsOfAppendNew(seats, s);
    } else {
      RunsOfAppendRun(seats, row, start, n - 1);
      RunsOfAppendNext(seats + RunSeats(row, start, n - 1), s, RunsOf(seats), start);
    }
  }

  /** The last span of a non-empty seat sequence ends just after its last seat. */
  lemma {:induction false} RunsOfLast(seats: seq<Seat>)
    requires seats != []
    ensures var runs := RunsOf(seats);
      runs != [] && runs[|runs| - 1].row == seats[|seats| - 1].row &&
      runs[|runs| - 1].end == seats[|seats| - 1].col + 1
  {
  }

  /** A contiguous block of seats forms one span. */
  lemma {:induction false} RunsOfRun(row: int, start: int, n: nat)
    requires 1 <= n
    ensures RunsOf(RunSeats(row, start, n)) == [Span(start, start + n, row)]
  {
    RunsOfAppendRun([], row, start, n);
    assert [] + RunSeats(row, start, n) == RunSeats(row, start, n);
  }

  /** Cell (x, y) is within `k` rows above or below span `sp`, over its columns. */
  predicate RowZone(sp: Span, k: int, x: int, y: int)
  {
    x != sp.row && sp.row - k <= x <= sp.row + k && sp.start <= y < sp.end
  }

  /** Cell (x, y) is within `k` cells left or right of span `sp`, in its row. */
  predicate ColZone(sp: Span, k: int, x: int, y: int)
  {
    x == sp.row && (sp.start - k <= y < sp.start || sp.end <= y < sp.end + k)
  }

  /** Cell (x, y) is in the buffer zone of `sp`: within `rowBuffer` rows above or
      below the span over its columns, or within `colBuffer` cells left or right
      of it in its own row. */
  predicate InZone(sp: Span, rowBuffer: int, colBuffer: int, x: int, y: int)
  {
    RowZone(sp, rowBuffer, x, y) || ColZone(sp, colBuffer, x, y)
  }

  /** A span lies in a grid of `rows` rows and `cols` columns and is not empty. */
  predicate SpanInGrid(sp: Span, rows: int, cols: int)
  {
    0 <= sp.row < rows && 0 <= sp.start < sp.end <= cols
  }

  /** Cell (x, y) is in the buffer zone of some span of `spans`. */
  predicate Covered(spans: seq<Span>, rowBuffer: int, colBuffer: int, x: int, y: int)
  {
    spans != [] &&
    (Covered(spans[..|spans| - 1], rowBuffer, colBuffer, x, y) ||
     InZone(spans[|spans| - 1], rowBuffer, colBuffer, x, y))
  }

  /** A cell is covered by `a + b` iff it is covered by `a` or by `b`. */
  lemma {:induction false} CoveredAppend(a: seq<Span>, b: seq<Span>, rowBuffer: int, colBuffer: int, x: int, y: int)
    ensures Covered(a + b, rowBuffer, colBuffer, x, y) <==>
            Covered(a, rowBuffer, colBuffer, x, y) || Covered(b, rowBuffer, colBuffer, x, y)
  {
    if b == [] {
      assert a + b == a;
    } else {
      var n := |b| - 1;
      assert (a + b)[..|a + b| - 1] == a + b[..n];
      CoveredAppend(a, b[..n], rowBuffer, colBuffer, x, y);
    }
  }

  /** The grid after laying the buffers of `spans`: every cell of their zones is unavailable. */
  function Buffered(cells: seq<seq<bool>>, spans: seq<Span>, rowBuffer: int, colBuffer: int): (r: seq<seq<bool>>)
    ensures |r| == |cells| && forall x :: 0 <= x < |cells| ==> |r[x]| == |cells[x]|
  {
    seq(|cells|, x requires 0 <= x < |cells| =>
      seq(|cells[x]|, y requires 0 <= y < |cells[x]| =>
        cells[x][y] || Covered(spans, rowBuffer, colBuffer, x, y)))
  }

  /** Laying the buffers of `a` and then those of `b` is laying those of `a + b`. */
  lemma {:induction false} BufferedAppend(cells: seq<seq<bool>>, a: seq<Span>, b: seq<Span>, rowBuffer: int, colBuffer: int)
    ensures Buffered(Buffered(cells, a, rowBuffer, colBuffer), b, rowBuffer, colBuffer) ==
            Buffered(cells, a + b, rowBuffer, colBuffer)
  {
    var l := Buffered(Buffered(cells, a, rowBuffer, colBuffer), b, rowBuffer, colBuffer);
    var r := Buffered(cells, a + b, rowBuffer, colBuffer);
    forall x, y | 0 <= x < |cells| && 0 <= y < |cells[x]|
      ensures l[x][y] == r[x][y]
    {
      CoveredAppend(a, b, rowBuffer, colBuffer, x, y);
    }
    SameGrid(l, r);
  }

  /** The seats one group got, the spans recorded for its buffers, and whether
      it sat in one contiguous run. */
  datatype Group = Group(seats: seq<Seat>, spans: seq<Span>, together: bool)

  /** Placement of one group of `g` seats on `cells`: the leftmost run of the
      highest row that has one; otherwise the first `g` available cells in
      scan order (all of them, if there are fewer). */
  function GroupPlacement(cells: seq<seq<bool>>, g: int): Group
    requires 1 <= g
  {
    var r := HighestRunRow(cells, g, |cells| - 1);
    if r >= 0 then
      var s := LeftmostRun(cells[r], g);
      Group(RunSeats(r, s, g), [Span(s, s + g, r)], true)
    else
      var free := ScanFree(cells);
      var seats := if g <= |free| then free[..g] else free;
      Group(seats, RunsOf(seats), false)
  }

  /** The groups of a request for `n` seats: groups of min(remaining, cols)
      seats, each placed on the grid left by the ones before it. */
  function Placements(cells: seq<seq<bool>>, n: int, cols: int): seq<Group>
    decreases n
  {
    if n <= 0 || cols <= 0 then []
    else
      var g := if n < cols then n else cols;
      var grp := GroupPlacement(cells, g);
      [grp] + Placements(WithSeats(cells, grp.seats), n - cols, cols)
  }

  /** A request for n >= 1 seats is its first group followed by the groups of
      the rest of the request on the grid that group leaves. */
  lemma {:induction false} PlacementsCons(cells: seq<seq<bool>>, n: int, cols: int)
    requires 1 <= cols && 1 <= n
    ensures var grp := GroupPlacement(cells, if n < cols then n else cols);
      Placements(cells, n, cols) == [grp] + Placements(WithSeats(cells, grp.seats), n - cols, cols)
  {
  }

  /** The seats of all groups, in assignment order. */
  function AllSeats(groups: seq<Group>): seq<Seat>
  {
    if groups == [] then [] else groups[0].seats + AllSeats(groups[1..])
  }

  /** The spans of all groups, in assignment order. */
  function AllSpans(groups: seq<Group>): seq<Span>
  {
    if groups == [] then [] else groups[0].spans + AllSpans(groups[1..])
  }

  /** Some group had to be split. */
  predicate AnySplit(groups: seq<Group>)
  {
    exists k :: 0 <= k < |groups| && !groups[k].together
  }

  lemma {:induction false} AllSeatsAppend(a: seq<Group>, b: seq<Group>)
    ensures AllSeats(a + b) == AllSeats(a) + AllSeats(b)
  {
    if a != [] {
      assert (a + b)[1..] == a[1..] + b;
      AllSeatsAppend(a[1..], b);
    } else {
      assert a + b == b;
    }
  }

  lemma {:induction false} AllSpansAppend(a: seq<Group>, b: seq<Group>)
    ensures AllSpans(a + b) == AllSpans(a) + AllSpans(b)
  {
    if a != [] {
      assert (a + b)[1..] == a[1..] + b;
      AllSpansAppend(a[1..], b);
    } else {
      assert a + b == b;
    }
  }

  /** Two seat sequences with no common seat concatenate to a sequence without repeats. */
  lemma {:induction false} DistinctConcat(a: seq<Seat>, b: seq<Seat>)
    requires Distinct(a) && Distinct(b)
    requires forall k :: 0 <= k < |b| ==> b[k] !in a
    ensures Distinct(a + b)
  {
    var s := a + b;
    forall x, y | 0 <= x < y < |s| ensures s[x] != s[y] {
      if x < |a| && y >= |a| {
        assert s[y] == b[y - |a|];
      }
    }
  }

  /** A group of at most as many seats as there are available cells gets
      exactly `g` distinct seats, each available before, and its recorded spans
      are the runs of those seats. */
  lemma {:induction false} GroupPlacementFacts(cells: seq<seq<bool>>, g: int)
    requires 1 <= g <= TotalFree(cells)
    ensures var grp := GroupPlacement(cells, g);
      |grp.seats| == g && Distinct(grp.seats) &&
      (forall k :: 0 <= k < g ==> IsFree(cells, grp.seats[k])) &&
      grp.spans == RunsOf(grp.seats)
  {
    var r := HighestRunRow(cells, g, |cells| - 1);
    if r >= 0 {
      var s := LeftmostRun(cells[r], g);
      assert RunAt(cells[r], s, g);
      RunsOfRun(r, s, g);
      var seats := RunSeats(r, s, g);
      forall k | 0 <= k < g ensures IsFree(cells, seats[k]) {
        assert seats[k] == Seat(r, s + k);
      }
    } else {
      ScanFreeFacts(cells);
    }
  }

  /** The placement policy of one group: it sits together exactly when some row
      has an available run of `g` cells; then it takes the leftmost such run of
      the highest such row, left to right; otherwise it takes the first `g`
      available cells in bottom-to-top, left-to-right order. */
  lemma {:induction false} GroupPlacementPolicy(cells: seq<seq<bool>>, g: int)
    requires 1 <= g <= TotalFree(cells)
    ensures var grp := GroupPlacement(cells, g);
      (grp.together <==> exists x, t :: 0 <= x < |cells| && RunAt(cells[x], t, g)) &&
      (grp.together ==>
        var row, col := grp.seats[0].row, grp.seats[0].col;
        0 <= row < |cells| && grp.seats == RunSeats(row, col, g) && RunAt(cells[row], col, g) &&
        (forall x, t :: row < x < |cells| ==> !RunAt(cells[x], t, g)) &&
        (forall t :: t < col ==> !RunAt(cells[row], t, g))) &&
      (!grp.together ==> g <= |ScanFree(cells)| && grp.seats == ScanFree(cells)[..g])
  {
    var grp := GroupPlacement(cells, g);
    var r := HighestRunRow(cells, g, |cells| - 1);
    GroupPlacementFacts(cells, g);
    if r >= 0 {
      var s := LeftmostRun(cells[r], g);
      assert grp.seats[0] == Seat(r, s);
      forall x, t | r < x < |cells| ensures !RunAt(cells[x], t, g) {
        assert LeftmostRun(cells[x], g) == -1;
      }
    } else {
      forall x, t | 0 <= x < |cells| ensures !RunAt(cells[x], t, g) {
        assert LeftmostRun(cells[x], g) == -1;
      }
    }
  }

  /** A group that cannot sit together takes the first `g` available cells in
      scan order: its seats are in scan order, and every available cell it
      does not take comes after all of them. */
  lemma {:induction false} SplitPlacementFirst(cells: seq<seq<bool>>, g: int)
    requires 1 <= g <= TotalFree(cells)
    requires !GroupPlacement(cells, g).together
    ensures |GroupPlacement(cells, g).seats| == g
    ensures ScanOrdered(GroupPlacement(cells, g).seats)
    ensures forall t, k :: IsFree(cells, t) && t !in GroupPlacement(cells, g).seats && 0 <= k < g ==>
      ScanBefore(GroupPlacement(cells, g).seats[k], t)
  {
    var free := ScanFree(cells);
    var seats := GroupPlacement(cells, g).seats;
    GroupPlacementFacts(cells, g);
    GroupPlacementPolicy(cells, g);
    ScanFreeOrder(cells);
    assert seats == free[..g];
    forall a, b | 0 <= a < b < |seats| ensures ScanBefore(seats[a], seats[b]) {
      assert seats[a] == free[a] && seats[b] == free[b];
    }
    forall t, k | IsFree(cells, t) && t !in seats && 0 <= k < g
      ensures ScanBefore(seats[k], t)
    {
      var m :| 0 <= m < |free| && free[m] == t;
      assert forall q :: 0 <= q < g ==> seats[q] == free[q];
      assert k < m;
    }
  }

  /** A cell available after occupying `seats` was available before and is not one of them. */
  lemma {:induction false} FreeAfter(cells: seq<seq<bool>>, seats: seq<Seat>, rest: seq<Seat>)
    requires forall k :: 0 <= k < |rest| ==> IsFree(WithSeats(cells, seats), rest[k])
    ensures forall k :: 0 <= k < |rest| ==> IsFree(cells, rest[k]) && rest[k] !in seats
  {
    forall k | 0 <= k < |rest|
      ensures IsFree(cells, rest[k]) && rest[k] !in seats
    {
      WithSeatsAt(cells, seats, rest[k].row, rest[k].col);
    }
  }

  /** `seats` are distinct cells, each available in `cells`. */
  predicate FreshSeats(cells: seq<seq<bool>>, seats: seq<Seat>)
  {
    Distinct(seats) && forall k :: 0 <= k < |seats| ==> IsFree(cells, seats[k])
  }

  /** The groups of a request are its first group followed by the groups of the
      rest of the request on the grid that group leaves. */
  lemma {:induction false} PlacementsUnfold(cells: seq<seq<bool>>, n: int, cols: int)
    requires 1 <= cols && 1 <= n
    ensures var g := if n < cols then n else cols;
      var grp := GroupPlacement(cells, g);
      AllSeats(Placements(cells, n, cols)) ==
        grp.seats + AllSeats(Placements(WithSeats(cells, grp.seats), n - cols, cols))
  {
    var g := if n < cols then n else cols;
    var grp := GroupPlacement(cells, g);
    var groups := Placements(cells, n, cols);
    assert groups[1..] == Placements(WithSeats(cells, grp.seats), n - cols, cols);
  }

  /** Seats of `a` and then seats available after occupying `a` are fresh together. */
  lemma {:induction false} FreshConcat(cells: seq<seq<bool>>, a: seq<Seat>, b: seq<Seat>)
    requires FreshSeats(cells, a) && FreshSeats(WithSeats(cells, a), b)
    ensures FreshSeats(cells, a + b)
  {
    FreeAfter(cells, a, b);
    DistinctConcat(a, b);
    var s := a + b;
    forall k | 0 <= k < |s| ensures IsFree(cells, s[k]) {
      if k >= |a| { assert s[k] == b[k - |a|]; }
    }
  }

  /** Ledger completeness and soundness of a whole request: when `n` does not
      exceed the available cells, the groups together get exactly `n` (or, for
      n <= 0, no) distinct seats, every one available before the request. */
  lemma {:induction false} PlacementsSeats(cells: seq<seq<bool>>, n: int, cols: int)
    requires 1 <= cols && n <= TotalFree(cells)
    decreases n
    ensures var seats := AllSeats(Placements(cells, n, cols));
      |seats| == (if n < 0 then 0 else n) && FreshSeats(cells, seats)
  {
    if n > 0 {
      var g := if n < cols then n else cols;
      var grp := GroupPlacement(cells, g);
      GroupPlacementFacts(cells, g);
      var next := WithSeats(cells, grp.seats);
      var rest := AllSeats(Placements(next, n - cols, cols));
      assert FreshSeats(cells, grp.seats) && |grp.seats| == g;
      assert n - cols <= TotalFree(next) by { TotalFreeWithSeats(cells, grp.seats); }
      assert |rest| == (if n - cols < 0 then 0 else n - cols) && FreshSeats(next, rest) by {
        PlacementsSeats(next, n - cols, cols);
      }
      assert AllSeats(Placements(cells, n, cols)) == grp.seats + rest by { PlacementsUnfold(cells, n, cols); }
      FreshConcat(cells, grp.seats, rest);
    }
  }

  /** Every group of a request records the runs of its own seats as its spans. */
  lemma {:induction false} PlacementsSpans(cells: seq<seq<bool>>, n: int, cols: int)
    requires 1 <= cols && n <= TotalFree(cells)
    decreases n
    ensures var groups := Placements(cells, n, cols);
      forall k :: 0 <= k < |groups| ==> groups[k].spans == RunsOf(groups[k].seats)
  {
    if n > 0 {
      var g := if n < cols then n else cols;
      var grp := GroupPlacement(cells, g);
      GroupPlacementFacts(cells, g);
      var next := WithSeats(cells, grp.seats);
      TotalFreeWithSeats(cells, grp.seats);
      PlacementsSpans(next, n - cols, cols);
      var groups := Placements(cells, n, cols);
      assert groups == [grp] + Placements(next, n - cols, cols);
      forall k | 0 <= k < |groups| ensures groups[k].spans == RunsOf(groups[k].seats) {
        if k > 0 { assert groups[k] == Placements(next, n - cols, cols)[k - 1]; }
      }
    }
  }

  /** The runs of seats inside a grid lie inside the grid. */
  lemma {:induction false} RunsOfInGrid(seats: seq<Seat>, rows: int, cols: int)
    requires forall k :: 0 <= k < |seats| ==> 0 <= seats[k].row < rows && 0 <= seats[k].col < cols
    ensures forall k :: 0 <= k < |RunsOf(seats)| ==> SpanInGrid(RunsOf(seats)[k], rows, cols)
  {
    if seats != [] {
      RunsOfInGrid(seats[..|seats| - 1], rows, cols);
    }
  }

  /** The spans of the groups that sat together, in group order. */
  function TogetherSpans(groups: seq<Group>): seq<Span>
  {
    if groups == [] then []
    else
      var last := groups[|groups| - 1];
      TogetherSpans(groups[..|groups| - 1]) + (if last.together then last.spans else [])
  }

  /** The spans of the groups that were split, in group order. */
  function SeparateSpans(groups: seq<Group>): seq<Span>
  {
    if groups == [] then []
    else
      var last := groups[|groups| - 1];
      SeparateSpans(groups[..|groups| - 1]) + (if last.together then [] else last.spans)
  }

  /** The spans of a list of span lists, in order. */
  function Flatten(lists: seq<seq<Span>>): seq<Span>
  {
    if lists == [] then [] else Flatten(lists[..|lists| - 1]) + lists[|lists| - 1]
  }

  /** Buffering first the spans of the together groups and then those of the
      split groups gives the same grid as buffering every span in group order. */
  lemma {:induction false} BufferOrder(cells: seq<seq<bool>>, groups: seq<Group>, rowBuffer: int, colBuffer: int)
    ensures Buffered(cells, TogetherSpans(groups) + SeparateSpans(groups), rowBuffer, colBuffer) ==
            Buffered(cells, AllSpans(groups), rowBuffer, colBuffer)
  {
    var l := Buffered(cells, TogetherSpans(groups) + SeparateSpans(groups), rowBuffer, colBuffer);
    var r := Buffered(cells, AllSpans(groups), rowBuffer, colBuffer);
    forall x, y | 0 <= x < |cells| && 0 <= y < |cells[x]|
      ensures l[x][y] == r[x][y]
    {
      CoveredAppend(TogetherSpans(groups), SeparateSpans(groups), rowBuffer, colBuffer, x, y);
      CoveredSplit(groups, rowBuffer, colBuffer, x, y);
    }
    SameGrid(l, r);
  }

  /** A cell is in the zone of some group's span iff it is in the zone of a
      together group's span or of a split group's span. */
  lemma {:induction false} CoveredSplit(groups: seq<Group>, rowBuffer: int, colBuffer: int, x: int, y: int)
    ensures Covered(AllSpans(groups), rowBuffer, colBuffer, x, y) <==>
            Covered(TogetherSpans(groups), rowBuffer, colBuffer, x, y) ||
            Covered(SeparateSpans(groups), rowBuffer, colBuffer, x, y)
  {
    if groups != [] {
      var n := |groups| - 1;
      var last := groups[n];
      assert groups == groups[..n] + [last];
      CoveredSplit(groups[..n], rowBuffer, colBuffer, x, y);
      AllSpansAppend(groups[..n], [last]);
      assert AllSpans([last]) == last.spans;
      CoveredAppend(AllSpans(groups[..n]), last.spans, rowBuffer, colBuffer, x, y);
      CoveredAppend(TogetherSpans(groups[..n]), if last.together then last.spans else [], rowBuffer, colBuffer, x, y);
      CoveredAppend(SeparateSpans(groups[..n]), if last.together then [] else last.spans, rowBuffer, colBuffer, x, y);
    }
  }

  /** Some group of `groups + [g]` was split iff one of `groups` was or `g` was. */
  lemma {:induction false} AnySplitAppend(groups: seq<Group>, g: Group)
    ensures AnySplit(groups + [g]) <==> AnySplit(groups) || !g.together
  {
    var all := groups + [g];
    if AnySplit(groups) {
      var k :| 0 <= k < |groups| && !groups[k].together;
      assert all[k] == groups[k];
    }
    if !g.together {
      assert all[|groups|] == g;
    }
    if AnySplit(all) {
      var k :| 0 <= k < |all| && !all[k].together;
      if k < |groups| { assert all[k] == groups[k]; }
    }
  }

  /** An accepted request only ever makes cells unavailable: every cell that was
      unavailable stays so, every seat it assigns and every in-grid cell of a
      buffer zone is unavailable afterwards, and no other cell changes. */
  lemma {:induction false} AcceptedOccupancy(cells: seq<seq<bool>>, seats: seq<Seat>, spans: seq<Span>, rowBuffer: int, colBuffer: int)
    ensures var after := Buffered(WithSeats(cells, seats), spans, rowBuffer, colBuffer);
      |after| == |cells| &&
      forall x, y :: 0 <= x < |cells| && 0 <= y < |cells[x]| ==>
        |after[x]| == |cells[x]| &&
        after[x][y] == (cells[x][y] || Seat(x, y) in seats || Covered(spans, rowBuffer, colBuffer, x, y))
  {
    forall x, y | 0 <= x < |cells| && 0 <= y < |cells[x]|
      ensures WithSeats(cells, seats)[x][y] == (cells[x][y] || Seat(x, y) in seats)
    {
      WithSeatsAt(cells, seats, x, y);
    }
  }
}
