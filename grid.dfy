/** The seating grid as a value: `true` marks an unavailable cell (seated or
    buffered), `false` an available one. Counting of available cells and
    the effect of occupying cells are defined here once, on values; the
    class in module Assigner keeps a ghost copy of its array in this form. */
module Grid {

  /** One cell of the grid, by 0-based row and column. */
  datatype Seat = Seat(row: int, col: int)

  /** Cells `start .. end-1` of one row (end exclusive): a block of seats
      recorded by the placement so that buffers can be laid around it. */
  datatype Span = Span(start: int, end: int, row: int)

  /** Every row of `cells` has `cols` cells. */
  predicate Rect(cells: seq<seq<bool>>, cols: int)
  {
    forall r :: 0 <= r < |cells| ==> |cells[r]| == cols
  }

  predicate InGrid(cells: seq<seq<bool>>, s: Seat)
  {
    0 <= s.row < |cells| && 0 <= s.col < |cells[s.row]|
  }

  /** `s` is a cell of the grid and is available. */
  predicate IsFree(cells: seq<seq<bool>>, s: Seat)
  {
    InGrid(cells, s) && !cells[s.row][s.col]
  }

  /** No seat occurs twice. */
  predicate Distinct(seats: seq<Seat>)
  {
    forall a, b :: 0 <= a < b < |seats| ==> seats[a] != seats[b]
  }

  /** Number of available cells of one row. */
  function FreeCount(row: seq<bool>): (n: nat)
    ensures n <= |row|
    ensures n == |row| <==> forall k :: 0 <= k < |row| ==> !row[k]
  {
    if row == [] then 0 else (if row[0] then 0 else 1) + FreeCount(row[1..])
  }

  /** Number of available cells of the whole grid. */
  function TotalFree(cells: seq<seq<bool>>): nat
  {
    if cells == [] then 0 else TotalFree(cells[..|cells| - 1]) + FreeCount(cells[|cells| - 1])
  }

  /** Marking one cell unavailable lowers the row's count by one exactly when
      the cell was available. */
  lemma {:induction false} FreeCountSet(row: seq<bool>, c: int)
    requires 0 <= c < |row|
    ensures FreeCount(row[c := true]) == FreeCount(row) - (if row[c] then 0 else 1)
  {
    if c == 0 {
      assert row[c := true][1..] == row[1..];
    } else {
      assert row[c := true][1..] == row[1..][c - 1 := true];
      FreeCountSet(row[1..], c - 1);
    }
  }

  /** Replacing one row changes the grid total by the change of that row. */
  lemma {:induction false} TotalFreeSet(cells: seq<seq<bool>>, r: int, row: seq<bool>)
    requires 0 <= r < |cells|
    ensures TotalFree(cells[r := row]) == TotalFree(cells) - FreeCount(cells[r]) + FreeCount(row)
  {
    var n := |cells| - 1;
    if r == n {
      assert cells[r := row][..n] == cells[..n];
    } else {
      assert cells[r := row][..n] == cells[..n][r := row];
      TotalFreeSet(cells[..n], r, row);
    }
  }

  /** A grid of `rows` rows with `cols` available cells each. */
  function EmptyGrid(rows: nat, cols: nat): (cells: seq<seq<bool>>)
    ensures |cells| == rows && Rect(cells, cols)
    ensures forall r, c :: 0 <= r < rows && 0 <= c < cols ==> !cells[r][c]
  {
    seq(rows, _ => seq(cols, _ => false))
  }

  /** A fresh grid has rows * cols available cells. */
  lemma {:induction false} EmptyGridFree(rows: nat, cols: nat)
    ensures TotalFree(EmptyGrid(rows, cols)) == rows * cols
  {
    if rows > 0 {
      assert EmptyGrid(rows, cols)[..rows - 1] == EmptyGrid(rows - 1, cols);
      EmptyGridFree(rows - 1, cols);
      assert FreeCount(EmptyGrid(rows, cols)[rows - 1]) == cols;
    }
  }

  /** The grid after marking the cell `s` unavailable (no change outside the grid). */
  function WithSeat(cells: seq<seq<bool>>, s: Seat): seq<seq<bool>>
  {
    if InGrid(cells, s) then cells[s.row := cells[s.row][s.col := true]] else cells
  }

  /** The grid after marking the cells `seats` unavailable, one after another. */
  function WithSeats(cells: seq<seq<bool>>, seats: seq<Seat>): (r: seq<seq<bool>>)
    ensures |r| == |cells| && forall x :: 0 <= x < |cells| ==> |r[x]| == |cells[x]|
  {
    if seats == [] then cells
    else WithSeat(WithSeats(cells, seats[..|seats| - 1]), seats[|seats| - 1])
  }

  /** After occupying `seats`, a cell is unavailable iff it was before or it is one of `seats`. */
  lemma {:induction false} WithSeatsAt(cells: seq<seq<bool>>, seats: seq<Seat>, x: int, y: int)
    requires 0 <= x < |cells| && 0 <= y < |cells[x]|
    ensures WithSeats(cells, seats)[x][y] == (cells[x][y] || Seat(x, y) in seats)
  {
    if seats != [] {
      var n := |seats| - 1;
      WithSeatsAt(cells, seats[..n], x, y);
      assert seats == seats[..n] + [seats[n]];
    }
  }

  /** Occupying `a` and then `b` is occupying `a + b`. */
  lemma {:induction false} WithSeatsAppend(cells: seq<seq<bool>>, a: seq<Seat>, b: seq<Seat>)
    ensures WithSeats(cells, a + b) == WithSeats(WithSeats(cells, a), b)
  {
    var l := WithSeats(cells, a + b);
    var r := WithSeats(WithSeats(cells, a), b);
    forall x, y | 0 <= x < |cells| && 0 <= y < |cells[x]|
      ensures l[x][y] == r[x][y]
    {
      WithSeatsAt(cells, a + b, x, y);
      WithSeatsAt(cells, a, x, y);
      WithSeatsAt(WithSeats(cells, a), b, x, y);
      assert Seat(x, y) in a + b <==> Seat(x, y) in a || Seat(x, y) in b;
    }
    SameGrid(l, r);
  }

  /** Occupying distinct available cells lowers the total by their number. */
  lemma {:induction false} TotalFreeWithSeats(cells: seq<seq<bool>>, seats: seq<Seat>)
    requires Distinct(seats)
    requires forall k :: 0 <= k < |seats| ==> IsFree(cells, seats[k])
    ensures TotalFree(WithSeats(cells, seats)) == TotalFree(cells) - |seats|
  {
    if seats != [] {
      var n := |seats| - 1;
      var s := seats[n];
      var before := WithSeats(cells, seats[..n]);
      TotalFreeWithSeats(cells, seats[..n]);
      assert s !in seats[..n];
      WithSeatsAt(cells, seats[..n], s.row, s.col);
      assert !before[s.row][s.col];
      FreeCountSet(before[s.row], s.col);
      TotalFreeSet(before, s.row, before[s.row][s.col := true]);
    }
  }

  /** Two grids with the same shape and the same cells are equal. */
  lemma {:induction false} SameGrid(a: seq<seq<bool>>, b: seq<seq<bool>>)
    requires |a| == |b|
    requires forall x :: 0 <= x < |a| ==> |a[x]| == |b[x]|
    requires forall x, y :: 0 <= x < |a| && 0 <= y < |a[x]| ==> a[x][y] == b[x][y]
    ensures a == b
  {
    forall x | 0 <= x < |a|
      ensures a[x] == b[x]
    {
    }
  }

  /** A grid of `rows` rows of `cols` cells has at most rows * cols available cells. */
  lemma {:induction false} TotalFreeBound(cells: seq<seq<bool>>, cols: int)
    requires Rect(cells, cols)
    ensures TotalFree(cells) <= |cells| * cols
  {
    if cells != [] {
      var n := |cells| - 1;
      TotalFreeBound(cells[..n], cols);
      assert |cells| * cols == n * cols + cols;
    }
  }
}
