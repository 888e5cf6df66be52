# Daily calendar puzzle: the `Board` core

The `Board` of `daily_puzzle.py` is an 8 x 7 grid of one-character cells, the
calendar puzzle board. `__init_board` opens the playable region with `'-'`
(OPEN) and leaves the other cells `' '`. `__set_date` writes `'M'`, `'D'` and
`'W'` on the cells of the month, the day and the weekday. `__solve` is a
depth-first backtracking search that places the ten polyominoes of the
`PIECES` table in order. It writes piece j as the digit `str(j)` and writes
OPEN back to undo a failed placement. `__can_place_at` tests one orientation
at one anchor. The grid is also kept as text: `'\n'`-joined rows in a
solution cache (`__db_put`, `__db_get`) and space-separated rows when printed
(`__repr__`).

The model has five modules:

- `Geometry` (`geometry.dfy`): the literal piece table and what it guarantees.
  Each orientation has as many distinct, non-negative offsets as its piece
  has cells, and the pieces have 47 cells in total.
- `Layout` (`layout.dfy`): the grid as a sequence of rows. It covers the
  playable region, the marker arithmetic and the counting of OPEN cells:
  50 after `__init_board`, 47 after the three markers.
- `Search` (`search.dfy`): the search stated on values. It defines where an
  orientation lands, writing a digit over a list of cells, writing OPEN back,
  what it means for a piece to be placed, and why placing all ten pieces on
  a date's grid leaves no OPEN cell. `Works` and `Solvable` say, by
  recursion over the pieces, when a placement of the remaining pieces
  exists; the search is proved to succeed exactly when one does.
- `Codec` (`codec.dfy`): the text forms. It models `split('\n')` and
  `join`, the cache entry and its decoding by `[r][c]` indexing (including
  where the copy stops on a short entry), and the printed layout.
- `DailyPuzzle` (`board.dfy`): the class `Board`. Its field `rows` is the
  list of rows. Where the source assigns a cell in place (`self[r][c] = ...`),
  the Dafny methods reassign `rows` to the grid with that cell changed. The
  methods are
  `InitBoard`, `SetDate`, `CanPlaceAt`, `Solve` (its loops over orientations
  and anchors in `TryOrientation`, one anchor's place, recurse and undo in
  `TryAt`, the write loops in `WriteCells`), the copy loop of `__db_get` (`LoadCached`,
  `LoadLines`, `CopyRow`) and `get` (`Get`). Each is proved against the
  value-level functions of the other modules.

## Model

| member | source | states |
|---|---|---|
| Geometry.OrientationsAreSound | daily_puzzle.py:14-91 | There are ten pieces. Every orientation of piece j has exactly as many offsets as the first orientation of j. These offsets are pairwise distinct and non-negative, and at least one lies in row 0 and one in column 0. |
| Geometry.AnchorCellNotAlwaysCovered | daily_puzzle.py:18-21 | Some orientation does not contain the anchor offset (0,0): the second orientation of piece 0. No part of the model assumes that the anchor cell is covered. |
| Geometry.TotalCells | daily_puzzle.py:14-91 | Pieces 5, 8 and 9 have four cells each and the other seven have five, so the ten pieces have 47 cells together. |
| Layout.InitialGrid | daily_puzzle.py:135-141 | Defines the grid `__init_board` leaves on a blank grid: every playable cell OPEN, every other cell blank. |
| Layout.InitialRows | daily_puzzle.py:135-141 | `__init_board` on a blank grid gives rows 0-1 as six OPEN cells and a blank. Rows 2-6 are all OPEN. Row 7 is four blanks and three OPEN cells. |
| Layout.InitialOpenCells | daily_puzzle.py:135-141 | `__init_board` opens exactly 50 cells. |
| Layout.MonthCell | daily_puzzle.py:147-148 | Defines the month cell: with m = month - 1, row m // 6 and column m % 6. |
| Layout.DayCell | daily_puzzle.py:150-152 | Defines the day cell: with d = day - 1, row d // 7 + 2 and column d % 7. |
| Layout.WeekdayCell | daily_puzzle.py:154-158 | Defines the weekday cell: (6, 3) for Sunday (6); otherwise row w // 3 + 6 and column w % 3 + 4. |
| Layout.MarkersOnBoard | daily_puzzle.py:146-158 | For month 1-12, day 1-31 and weekday 0-6: the month cell is in rows 0-1, columns 0-5. The day cell is in rows 2-6. The weekday cell is (6,3) on Sunday, otherwise in rows 6-7, columns 4-6. Each is a cell `__init_board` opens, and the three cells are pairwise distinct. |
| Layout.DateGridCells | daily_puzzle.py:143-158 | After `__set_date` each marker cell holds its own mark, so no marker overwrites another. Every other cell is as `__init_board` left it. |
| Layout.DateGrid | daily_puzzle.py:93-99 | Defines a new board's grid: `__init_board` on a blank 8 x 7 grid, then 'M', 'D' and 'W' written on the month, day and weekday cells in that order. |
| Layout.DateOpenCells | daily_puzzle.py:135-158 | After the three markers exactly 47 cells are OPEN, the total cell count of the ten pieces. |
| Search.Mark | daily_puzzle.py:122 | `str(working_on)` for a piece index below 10: the digit character whose value is the index. |
| Search.Footprint | daily_puzzle.py:191-204 | Defines the absolute cells of an orientation at an anchor, one per offset in offset order: what `coords` holds when every offset is accepted. |
| Search.Fits | daily_puzzle.py:190-206 | Defines the test of `__can_place_at`: every offset lands in bounds on an OPEN cell. |
| Search.Fill | daily_puzzle.py:121-128 | Defines the write loops `self[pr][pc] = ch` over `coords`: the cells are written one after the other, in list order. |
| Search.FillAt | daily_puzzle.py:121-122 | Writing a character over a list of cells sets exactly the listed cells to it. Every other cell is unchanged. |
| Search.PlaceThenUndo | daily_puzzle.py:120-128 | Writing OPEN back over cells that were all OPEN before the piece was written restores the grid exactly. |
| Search.MarksDisjoint | daily_puzzle.py:121-122 | No cell is given to two different pieces. |
| Search.PlaceThenSolve | daily_puzzle.py:116-125 | Suppose piece k is placed on cells where its orientation fits, and the search for pieces k+1 onward then succeeds. Seen from the grid before the placement, pieces k onward each occupy exactly the cells of one of their orientations at some anchor. Every changed cell was OPEN and now holds the digit of one of pieces k to 9. |
| Search.NoneWorks | daily_puzzle.py:115-130 | When no orientation of piece k works at any anchor, the remaining pieces cannot be placed, so returning False after both loops is right. |
| Search.PlacedSizes | daily_puzzle.py:116-122 | When every piece is placed, each was given exactly as many cells as it has. |
| Search.MarkedBelowSize | daily_puzzle.py:113-125 | When each of pieces 0 .. n-1 was given as many cells as it has, the cells given to them number exactly their total size, because no cell goes to two pieces. Each of those cells was OPEN and now holds a digit below n. |
| Search.FilledBySizes | daily_puzzle.py:112-130 | When the pieces were given as many previously OPEN cells as they have and there were exactly 47 OPEN cells, no cell is OPEN after the search. |
| Search.SolvedGridIsFull | daily_puzzle.py:112-130 | Suppose a grid has exactly 47 OPEN cells and the search placed all ten pieces on it without touching any other cell. Then no cell is OPEN any more. |
| Codec.Encode | daily_puzzle.py:171 | Defines the text `__db_put` stores: the rows joined with `'\n'`. |
| Codec.Decode | daily_puzzle.py:185-187 | Defines what a complete entry decodes to: the first seven characters of each of the first eight lines. An entry lacking some cell gives None. |
| Codec.PartialLoad | daily_puzzle.py:186-187 | Defines the grid the copy loop leaves: each cell copied from its line in row-major order, up to the first cell the entry lacks, where the IndexError stops it. |
| Codec.Split | daily_puzzle.py:185 | `split` on a one-character separator returns at least one part and no part contains the separator. Joining the parts with the separator gives the input back. |
| Codec.SplitJoin | daily_puzzle.py:171 | Splitting a joined, non-empty list of parts that contain no separator gives the parts back. |
| Codec.DecodeEncode | daily_puzzle.py:169-187 | A grid stored by `__db_put` and read back by `__db_get` comes back cell for cell. |
| Codec.EncodeDecode | daily_puzzle.py:184-187 | Text of exactly 8 lines of 7 characters is the stored text of the grid it decodes to. |
| Codec.NoGapDecodes | daily_puzzle.py:185-187 | The copy loop of `__db_get` finds every cell it indexes exactly when the entry has at least 8 lines with at least 7 characters each. |
| Codec.Render | daily_puzzle.py:133 | Defines `__repr__`: each row's cells joined by spaces, and the rows joined by `'\n'`. |
| Codec.SpacedRowLayout | daily_puzzle.py:133 | `' '.join` of a row of n cells has 2n-1 characters. Cell c is at position 2c and every odd position holds a space. |
| Codec.RenderLayout | daily_puzzle.py:132-133 | The printed board has 8 lines of 13 characters. Cell (r, c) is at position 2c of line r, with a space between cells. |
| DailyPuzzle.Board.constructor | daily_puzzle.py:93-99 | A new board is a blank 8 x 7 grid on which `__init_board` and `__set_date` have run. |
| DailyPuzzle.Board.InitBoard | daily_puzzle.py:135-141 | The three loops set exactly the playable cells to OPEN and leave every other cell as it was. |
| DailyPuzzle.Board.SetDate | daily_puzzle.py:143-158 | The month, day and weekday cells hold 'M', 'D' and 'W'. Every other cell is unchanged. |
| DailyPuzzle.Board.CanPlaceAt | daily_puzzle.py:190-206 | Does not change the grid. The answer is yes exactly when every offset lands in bounds on an OPEN cell. `coords` lists the absolute cells of the offsets accepted so far, in offset order. On success it is the whole footprint, as long as the orientation. On failure the check stopped at the first offset whose cell is out of bounds or not OPEN. |
| DailyPuzzle.Board.WriteCells | daily_puzzle.py:121-122 | The write loop leaves the grid that writing the character over the listed cells one after the other gives. |
| DailyPuzzle.Board.Solve | daily_puzzle.py:112-130 | Only OPEN cells are ever written, each with the digit of a piece from `working_on` on, so markers and blank cells survive. With no pieces left, the search succeeds without a change. It succeeds exactly when some placement of pieces `working_on` .. 9 on the entry grid exists (`Solvable`), so False at depth 0 means no exact cover. When the search fails, the grid is exactly as on entry. When it succeeds, every piece from `working_on` on occupies the cells of one of its orientations at some anchor. |
| DailyPuzzle.Board.TryOrientation | daily_puzzle.py:115-128 | The loop over the anchors for one orientation. A failure leaves the grid as it was and means that orientation works at no anchor. A success means the remaining pieces can be placed, and they have been. |
| DailyPuzzle.Board.TryAt | daily_puzzle.py:117-128 | One anchor: it succeeds exactly when the orientation fits there and the remaining pieces can then be placed (`Works`). On failure the written cells are set back to OPEN and the grid is as on entry. |
| DailyPuzzle.Board.CopyRow | daily_puzzle.py:186-187 | Copies the cells of row r from line r of the entry, left to right, stopping at the first cell the line lacks. |
| DailyPuzzle.Board.LoadLines | daily_puzzle.py:185-188 | The copy loop finishes exactly when the lines have every cell. The grid is then the lines' cells overlaid, in row-major order, up to the first missing cell. |
| DailyPuzzle.Board.LoadCached | daily_puzzle.py:175-188 | With no entry the grid is untouched. A complete entry is copied in and the grid equals its decoding. A short entry leaves the cells before the first missing one copied; that is the IndexError case. |
| DailyPuzzle.Board.Get | daily_puzzle.py:103-110 | A complete cached entry is shown and nothing is stored. A short entry gives no reply (the IndexError) and leaves the cells before the first missing one copied in. Otherwise the search runs from the current grid and its result is not looked at. The grid then reached is shown and handed to the cache. It only differs from the start by pieces written over OPEN cells. When the pieces can be placed at all, every piece is on the grid; when they cannot, the grid is unchanged. |
| DailyPuzzle.SolvedDateBoard | daily_puzzle.py:93-130 | On a date's grid, a search that placed every piece leaves no OPEN cell. The three date marks and the blank cells off the board are still in place. |

## Left out

- The sqlite cache is left out: the connection, table creation, and the insert and select calls (`__db_init`, and the I/O in `__db_put` and `__db_get`, daily_puzzle.py:160-188). The entry found for the date is a parameter of `LoadCached` and `Get`. The text `get` would insert is part of `Get`'s reply.
- The cache key `_db_id` (daily_puzzle.py:144) is left out. It only names the cache entry.
- The command-line script (daily_puzzle.py:208-220) is left out: argument parsing, `date.fromisoformat`, `date.today()`, printing and timing. Month, day and weekday (Monday = 0, as `date.weekday()` gives them) are integer inputs.
- Whether a solution exists for a particular date is not proved. That would mean running the exhaustive search inside the verifier, so only the conditional contracts of the search are stated.
- `COORDS` (daily_puzzle.py:94) is not kept as a list. The loops over it are nested row and column loops in the same row-major order.
- The grid is a value-typed sequence of rows that the methods reassign. Aliasing of the row lists, which the `list` subclass would allow, is not modelled.
- The model keeps these behaviours of the code:
  - Orientations need not contain the offset (0,0) (daily_puzzle.py:19).
  - `get` ignores what `__solve` returns, so after a failed search the grid of the date is stored and shown as it is. It is not reported as "no solution".
  - A cache entry lacking a cell makes `__db_get` raise IndexError part-way through the copy. `get` does not fall back to solving again. The model returns `Malformed` from `LoadCached` and no reply from `Get`, and keeps the partly copied grid.
- DailyPuzzle.Board.Solve: does not state which placement it finds when several exist, only that the one found places every piece. The source takes the first in orientation, row and column order.
- Codec.RenderLayout: states the printed layout by character position rather than as seven space-separated tokens per line. A blank cell is itself a space, so splitting a printed line on spaces does not give the cells back.
