# Seat assigner, modelled in Dafny

This project models the seat-placement engine of a theater booking program,
the `SeatAssigner` class of `src/SeatAssigner.java`. The theater is a fixed
`rows x cols` grid of cells; `true` marks a cell that is unavailable, either
seated or kept empty as a safety buffer. A request `(id, numSeats)` goes
through five stages:

- **Admission.** The request is rejected as invalid when `numSeats <= 0`. It
  is rejected as "no assign" when `numSeats` exceeds the cells still
  available (`capacity`). Otherwise it is placed.
- **Grouping.** The request is cut into groups of `min(remaining, cols)` seats.
- **Contiguous placement.** Rows are tried bottom row first. The group takes
  the leftmost run of available cells in the first row that has one.
- **Split placement.** When no row has a run, the group takes available
  cells bottom-to-top and left-to-right until it is seated. Each contiguous
  block it takes is recorded as a span.
- **Buffering.** Only after all groups are placed, each span gets a buffer:
  - `rowBuffer` rows above and below it, over its columns;
  - `colBuffer` cells to its left and right, in its row.

Every cell that goes from available to unavailable lowers the row's
`seatsRemain` and `capacity` by one. Each seat gets a ticket label: the row
letter (`a` for row 0) followed by the 1-based column number. Labels are
appended to the reservation's entry in the ticket ledger.

The project has four modules:

- `Grid` (`grid.dfy`): the grid as a value (`seq<seq<bool>>`), counting of
  available cells, and the effect of occupying cells.
- `Placement` (`placement.dfy`): where the seats and spans of a request go,
  as pure functions of the grid before the request:
  - `GroupPlacement` and `Placements` place the groups;
  - `ScanFree` is the split scan order;
  - `RunsOf` gives the spans of a split group;
  - `Buffered` is the grid after the buffers are laid.
- `Tickets` (`tickets.dfy`): labels, the ledger as
  `map<string, seq<string>>`, and the manifest line of one reservation.
- `Assigner` (`assigner.dfy`): class `SeatAssigner`, whose state is:
  - an `array2<bool>` grid and an `array<int>` of per-row counts;
  - `capacity`, the ledger and the five request counters.

  A ghost copy `Cells` of the grid holds the same cells as a value.
  `Valid()` is the class invariant: every count equals the number of
  available cells it stands for. Every method that changes the grid or the
  counts keeps `Valid()`, except the two array-level helpers `MarkRun` and
  `SetCell`. Those two keep only `Shape()` (the array holds `Cells`) and leave
  the counters to their caller `FillRow`. The methods that change only the
  ledger (`SlideWindow`, `IssueLabels`, `AddLabel`) cannot break `Valid()`,
  which does not read the ledger. Every method states its new state in terms
  of the functions of the other modules.

Three behaviours of the code are easy to get wrong, and the model follows
the code in each:

- **Live admission ceiling.** The limit is the live `capacity`, the cells
  still available (line 68). It is not the nominal `rows * cols`.
- **Buffers after all groups.** The buffers of a request are laid after
  every group of it is placed (lines 114-118). They are not interleaved
  between groups, so later groups of the same request can sit in cells
  that an earlier group's buffer would have covered.
- **Large requests count as split.** A request of more than `cols` seats
  counts as split even when every group sat contiguously (lines 89-91).

## Model

| member | source | states |
|---|---|---|
| Assigner.SeatAssigner.constructor | src/SeatAssigner.java:30-49 | Every cell starts available and every row count is `cols`. `capacity` is `rows * cols` and equals the available cells. The ledger is empty and all five counters are zero. |
| Assigner.SeatAssigner.Reserve | src/SeatAssigner.java:56-77 | Returns true iff `0 < numSeats <= capacity`, and `totalReq` always rises by one. Invalid requests raise only `invalidReq`; oversized ones raise only `noAssign`. A rejected request leaves the grid, counts, ledger and outcome counters unchanged. An accepted one ends with the grid, ledger and outcome counter given by `Placements`, `Buffered` and `Issue`. |
| Assigner.SeatAssigner.AssignSeat | src/SeatAssigner.java:84-126 | The new grid is the old one with every placed seat occupied, then the buffers of all spans laid. The ledger gains the labels of the placed seats in placement order. Exactly one of `assignSeparate` and `assignTogether` rises: `assignSeparate` iff `n > cols` or some group was split. |
| Assigner.SeatAssigner.PlaceAll | src/SeatAssigner.java:85-112 | After the request loop, the grid and ledger reflect exactly the seats of `Placements`. The together spans and the per-group split span lists are the spans of those groups. `separate` is `n > cols` or some group was split. |
| Assigner.SeatAssigner.PlaceNext | src/SeatAssigner.java:93-111 | One loop iteration places the next group as `GroupPlacement` dictates on the grid left by the earlier groups. `numSeats` drops by `cols`, and the loop invariant is carried from `done` to `done + [grp]`. |
| Assigner.SeatAssigner.PlaceGroup | src/SeatAssigner.java:94-111 | The group's seats, spans and together flag are those of `GroupPlacement` on the current grid. The grid gains exactly those seats and the ledger their labels. |
| Assigner.SeatAssigner.CloseRequest | src/SeatAssigner.java:114-125 | The buffers of the together spans are laid, then those of each split group. The request is counted as split iff `separate`. |
| Assigner.SeatAssigner.SeatBufferLists | src/SeatAssigner.java:116-118 | Laying the buffers of each list in turn gives the grid buffered by the concatenation of the lists. |
| Assigner.SeatAssigner.SitTogether | src/SeatAssigner.java:134-151 | Returns `LeftmostRun`, the smallest start of an available run of the requested length in the row, or -1. The state is unchanged. |
| Placement.LeftmostRun | src/SeatAssigner.java:134-151 | The result is -1 or the start of an available run. No available run starts before it, and when it is -1 there is no run at all. |
| Placement.HighestRunRow | src/SeatAssigner.java:96-105 | The result is the highest row at or below `i` that has an available run, and no higher row has one; -1 means no row has one. |
| Placement.GroupPlacementPolicy | src/SeatAssigner.java:94-111 | A group sits together iff some row has an available run of `g` cells. Then it takes the leftmost such run of the highest such row, left to right. Otherwise it takes the first `g` available cells in bottom-to-top, left-to-right order. |
| Placement.GroupPlacementFacts | src/SeatAssigner.java:94-111 | A group gets exactly `g` distinct cells, each available before. Its recorded spans are the runs of those cells. |
| Assigner.SeatAssigner.AssignTogether | src/SeatAssigner.java:161-172 | The grid gains exactly the run's cells and the counts drop by its length. The ledger gains its labels left to right. The returned span is `(startIdx, startIdx + seatCount, row)`. |
| Assigner.SeatAssigner.AssignSeparate | src/SeatAssigner.java:180-217 | The group takes exactly the first `seatCount` cells of `ScanFree`, and the grid and ledger gain them in scan order. The returned spans are the runs of those cells. The fall-through after the row loop (line 215) is proved unreachable. |
| Assigner.SeatAssigner.SeatRow | src/SeatAssigner.java:182-212 | One row of the split scan takes available cells in order and keeps the seats taken a prefix of the scan. The row loop goes on only while seats remain; a full row is passed over. |
| Assigner.SeatAssigner.SeatCols | src/SeatAssigner.java:188-212 | The column loop of one row, from its start column, takes blocks left to right. It stops with the seats taken a prefix of the scan once the group is seated; otherwise the scan goes on with the row above. |
| Assigner.SeatAssigner.SeatStep | src/SeatAssigner.java:189-211 | One step of the row scan moves past an unavailable cell or takes one block. Either way, the seats taken plus the rest of the scan stay the whole scan. |
| Assigner.SeatAssigner.SeatBlock | src/SeatAssigner.java:194-211 | One block of available cells is seated and recorded as a span. The scan decomposition and the spans stay consistent with `RunsOf`. |
| Assigner.SeatAssigner.TakeRun | src/SeatAssigner.java:194-205 | The window ends at the first unavailable cell, the row end, or after `remaining` cells. Exactly the cells it covered are occupied and labelled, and the counts drop by their number. |
| Assigner.SeatAssigner.SlideWindow | src/SeatAssigner.java:195-201 | The window's cells were all available. It stops at an unavailable cell, the row end, or `remaining` cells. The label of each cell is appended as the window passes it, so the ledger gains their labels in order. |
| Assigner.SeatAssigner.AddLabel | src/SeatAssigner.java:197-198 | The entry of `id` gains exactly the label of cell (row, col) at its end. The ledger then holds the labels of one more cell of the run. |
| Assigner.RunLabelsSeats | src/SeatAssigner.java:166 | The labels of cells `from .. from+n-1` of a row, built cell by cell, are the labels of those seats. |
| Assigner.SeatAssigner.IssueLabels | src/SeatAssigner.java:165-168 | The ledger entry of `id` gains the labels of cells `from .. to-1` of the row, left to right. |
| Assigner.SeatAssigner.FillRow | src/SeatAssigner.java:162-164 | Cells `from .. to-1` of the row become unavailable and no other cell changes. `seatsRemain[row]` and `capacity` drop by the number of cells. |
| Assigner.SeatAssigner.MarkRun | src/SeatAssigner.java:162 | Only cells `from .. to-1` of the row change. The row and grid available counts drop by their number. |
| Assigner.SeatAssigner.SetCell | src/SeatAssigner.java:236 | The single-cell write (also each cell of `Arrays.fill` at lines 162 and 203): cell (r, c) becomes unavailable in the array and in `Cells`, and no other cell changes. |
| Assigner.SeatAssigner.SeatBuffer | src/SeatAssigner.java:223-270 | After the span loop, the grid is the old one with the zone of every span unavailable. |
| Assigner.SeatAssigner.BufferSpan | src/SeatAssigner.java:224-269 | One span's buffer makes exactly the in-grid cells of its row zone and column zone unavailable. |
| Assigner.SeatAssigner.BufferRows | src/SeatAssigner.java:231-250 | Cells within `rowBuffer` rows above or below the span's row, over its columns, become unavailable. Nothing else changes. |
| Assigner.SeatAssigner.BufferCols | src/SeatAssigner.java:252-268 | The `colBuffer` cells left of `start` and from `end` rightwards in the span's row become unavailable. Nothing else changes. |
| Assigner.SeatAssigner.Occupy | src/SeatAssigner.java:235-239 | Cell (r, c) ends unavailable and no other cell changes. The counts drop only if it was available. |
| Assigner.SeatAssigner.Take | src/SeatAssigner.java:236-238 | Flipping an available cell lowers its row count and `capacity` by exactly one, keeping the invariant. |
| Assigner.WithSeatTaken | src/SeatAssigner.java:235 | Marking an already unavailable cell changes nothing. |
| Assigner.SkipStep | src/SeatAssigner.java:190-193 | Passing an unavailable cell leaves the remaining scan unchanged. |
| Assigner.RowStart | src/SeatAssigner.java:184-188 | The column scan of a row starts at column 0, or past the last cell for a row whose count is zero. Such a row contributes nothing to the scan, so skipping it is sound. |
| Assigner.AcceptedTickets | src/SeatAssigner.java:93-118 | An accepted request appends exactly `numSeats` labels, no two alike. Each label names a cell that was available before the request and is unavailable after it. |
| Assigner.FreshLabels | src/SeatAssigner.java:165-168 | Distinct available seats of a grid of at most 26 rows each get the label of their own cell, and no two get the same label. |
| Placement.PlacementsSeats | src/SeatAssigner.java:93-112 | When `n` is at most the available cells, the groups together get exactly `n` distinct cells, every one available before the request. |
| Placement.PlacementsSpans | src/SeatAssigner.java:101-109 | Every group records the runs of its own seats as its spans. |
| Placement.ScanFreeFacts | src/SeatAssigner.java:182-201 | The split scan lists every available cell exactly once, and only available cells. Its length is the number of available cells. |
| Placement.ScanFreeOrder | src/SeatAssigner.java:182-201 | Every available cell is in the split scan. The scan is strictly ordered bottom row first and, within a row, left to right. |
| Placement.SplitPlacementFirst | src/SeatAssigner.java:180-217 | A group that cannot sit together gets `g` seats in scan order. Every available cell it does not take comes after all of them in scan order. |
| Placement.RunsOfRun | src/SeatAssigner.java:171 | A contiguous run has exactly one span, `(start, start + n, row)`. |
| Placement.RunsOfAppendRun | src/SeatAssigner.java:202-208 | Seating one more block of the scan that does not continue the last seat taken adds exactly one span, `(start, start + n, row)`, to the recorded spans. |
| Placement.BufferedAppend | src/SeatAssigner.java:223-224 | Laying the buffers of `a` and then of `b` is laying those of `a + b`. |
| Placement.BufferOrder | src/SeatAssigner.java:114-118 | Laying together spans first and then split spans gives the same grid as laying every span in group order. |
| Placement.AnySplitAppend | src/SeatAssigner.java:108-111 | After one more group, some group was split iff one was before or this one was. |
| Placement.AcceptedOccupancy | src/SeatAssigner.java:84-126 | After an accepted request, a cell is unavailable iff it was before, or it was seated, or it lies in a buffer zone. Occupancy never goes back. |
| Grid.EmptyGridFree | src/SeatAssigner.java:33-48 | A fresh grid has `rows * cols` available cells, so the initial `capacity` is the true count. |
| Grid.TotalFreeBound | src/SeatAssigner.java:33 | A grid never has more than `rows * cols` available cells. |
| Grid.FreeCountSet | src/SeatAssigner.java:235-238 | Marking one cell lowers its row's count by one iff the cell was available. |
| Grid.WithSeatsAt | src/SeatAssigner.java:162 | After occupying a seat list, a cell is unavailable iff it was before or it is in the list. |
| Grid.TotalFreeWithSeats | src/SeatAssigner.java:161-164 | Occupying distinct available cells lowers the total by exactly their number. |
| Tickets.RowLetter | src/SeatAssigner.java:166 | The row letter is a lower-case letter. |
| Tickets.DecimalString | src/SeatAssigner.java:166 | The numeral is non-empty, all digits, and has no leading zero for numbers >= 1. |
| Tickets.DecimalRoundTrip | src/SeatAssigner.java:166 | Reading a column numeral back gives the number it was written from. |
| Tickets.LabelRoundTrip | src/SeatAssigner.java:166 | Parsing a label gives back the row and column it was made from. |
| Tickets.LabelInjective | src/SeatAssigner.java:197 | Different cells get different labels. |
| Tickets.LabelsDistinct | src/SeatAssigner.java:165-168 | Distinct seats get pairwise distinct labels. |
| Tickets.LabelsAppend | src/SeatAssigner.java:197-198 | The labels of `a + b` are those of `a` followed by those of `b`. |
| Tickets.IssueEffect | src/SeatAssigner.java:167 | Issuing appends exactly the labels to the entry of `id`. It creates that entry only when there is a label to add and touches no other entry. |
| Tickets.IssueConcat | src/SeatAssigner.java:198 | Issuing `a` and then `b` is issuing `a + b`. |
| Tickets.ManifestLineFields | src/SeatAssigner.java:289-294 | A manifest line splits on spaces back into the id followed by the labels. |
| Tickets.LabelNoSpace | src/SeatAssigner.java:289-294 | A label contains no space, so manifest lines of labels split back unambiguously. |

## Left out

- Request parsing (`split(" ")`, `Integer.parseInt` and their exceptions, lines 58-60): `Reserve` takes an already-parsed `(id, numSeats)`.
- Console output: the `println` diagnostics (lines 63, 69, 215), `printSeatingMap` and `printStatus`. The driver in `src/Main.java` is not part of this model.
- `writeToFile`: the file handling and its exception path are left out. Only the line format is modelled (`ManifestLine`).
- `TreeMap` iteration order matters only for the written manifest: the ledger is a `map<string, seq<string>>`.
- Java `int` width is not modelled: counts and indices are unbounded integers. `rows * cols` and the counters cannot wrap for any grid of at most 26 rows with a realistic column count.
- Assigner.SeatAssigner.BufferRows and Assigner.SeatAssigner.BufferCols: buffer widths near `Integer.MAX_VALUE` are not modelled. In Java, `row + r` (line 242) and `endIdx + i - 1` (line 261) then overflow, the bounds check passes a negative index, and the array access throws `ArrayIndexOutOfBoundsException`. With unbounded integers both methods finish normally and lay the zone clipped to the grid.
- Assigner.SeatAssigner.constructor: requires `0 <= rows <= 26` and `0 <= cols`. Java throws on negative sizes, and `(char)('a' + row)` is no longer a letter for rows 26 and beyond.
- Span strings (`"start end row"`, lines 171, 207, 225-228) are replaced by the `Span` datatype; their formatting and re-parsing are not modelled.
- Assigner.SeatAssigner.PlaceAll: the request loop of `assignSeat` (lines 93-112) is a method of its own. Its body is `PlaceNext`, with the group placement in `PlaceGroup`.
- Assigner.SeatAssigner.CloseRequest: the buffering and counting tail of `assignSeat` (lines 114-125) is a method of its own.
- Assigner.SeatAssigner.SeatRow: one row of `assignSeparate`'s row loop is a method of its own, with its column loop in `SeatCols` and its column steps in `SeatStep` and `SeatBlock`. A full row (line 184) is passed over by jumping the column index to the row end rather than by `continue`; no cell or counter differs.
- Assigner.SeatAssigner.TakeRun: one block of `assignSeparate` is the window (`SlideWindow`, appending each cell's label inside its loop through `AddLabel`) followed by the fill (`FillRow`), in the same order as lines 196-205.
- Assigner.SeatAssigner.MarkRun: `Arrays.fill` is a loop of `SetCell` calls over the array, and the counters are lowered once by the run length afterwards, as at lines 163-164 and 204-205.
- Assigner.SeatAssigner.Occupy: the repeated "if the cell is available, mark it and lower both counts" blocks of `seatBuffer` (lines 235-239, 243-247, 255-259, 263-266) are one method, with the flip itself in `Take`.
- The getter `getTickets` is not a separate member: the ledger is the public field `tickets`.
