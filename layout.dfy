/** The 8 x 7 grid of the calendar board: the playable region opened by
    `__init_board`, the three date markers written by `__set_date`, and the
    count of cells left OPEN for the pieces. */
module Layout {
  import opened Geometry

  const ROWS := 8
  const COLS := 7

  /** A playable cell that no piece covers yet. */
  const OPEN := '-'
  /** A cell outside the playable region. */
  const BLANK := ' '

  const MONTH_MARK := 'M'
  const DAY_MARK := 'D'
  const WEEKDAY_MARK := 'W'

  /** A (row, column) position. */
  type Cell = (int, int)

  /** The board as a list of rows, each row a list of one-character cells. */
  type Grid = seq<seq<char>>

  predicate IsGrid(g: Grid) {
    |g| == ROWS && forall r :: 0 <= r < |g| ==> |g[r]| == COLS
  }

  predicate InBounds(x: Cell) {
    0 <= x.0 < ROWS && 0 <= x.1 < COLS
  }

  function At(g: Grid, x: Cell): char
    requires IsGrid(g) && InBounds(x)
  {
    g[x.0][x.1]
  }

  /** `g[r][c] = ch`. */
  function SetCell(g: Grid, x: Cell, ch: char): (h: Grid)
    requires IsGrid(g) && InBounds(x)
    ensures IsGrid(h)
    ensures At(h, x) == ch
    ensures forall y :: InBounds(y) && y != x ==> At(h, y) == At(g, y)
  {
    g[x.0 := g[x.0][x.1 := ch]]
  }

  /** Two grids with the same cells are the same grid. */
  lemma GridsEqual(g: Grid, h: Grid)
    requires IsGrid(g) && IsGrid(h)
    requires forall y :: InBounds(y) ==> At(g, y) == At(h, y)
    ensures g == h
  {
    forall r | 0 <= r < ROWS
      ensures g[r] == h[r]
    {
      forall c | 0 <= c < COLS
        ensures g[r][c] == h[r][c]
      {
        assert At(g, (r, c)) == At(h, (r, c));
      }
    }
  }

  // ---- The playable region (__init_board) ----

  /** Rows 0-1 up to column 5, rows 2-6 entirely, and columns 4-6 of row 7. */
  predicate IsBoardCell(x: Cell) {
    InBounds(x) &&
    ((x.0 < 2 && x.1 < 6) || (2 <= x.0 < 7) || (x.0 == 7 && 4 <= x.1))
  }

  /** The grid after `__init_board`: the playable region OPEN, the rest BLANK. */
  function InitialGrid(): (g: Grid)
    ensures IsGrid(g)
    ensures forall x :: InBounds(x) ==> At(g, x) == (if IsBoardCell(x) then OPEN else BLANK)
  {
    seq(ROWS, r => seq(COLS, c => if IsBoardCell((r, c)) then OPEN else BLANK))
  }

  // ---- The date markers (__set_date) ----

  /** Month 1..12, day 1..31, weekday 0..6 (Monday = 0), as a date supplies them. */
  predicate ValidDate(month: int, day: int, weekday: int) {
    1 <= month <= 12 && 1 <= day <= 31 && 0 <= weekday <= 6
  }

  function MonthCell(month: int): Cell {
    var m := month - 1;
    (m / 6, m % 6)
  }

  function DayCell(day: int): Cell {
    var d := day - 1;
    (d / 7 + 2, d % 7)
  }

  /** Sunday has its own cell; the other days fill columns 4-6 of rows 6-7. */
  function WeekdayCell(weekday: int): Cell {
    if weekday == 6 then (6, 3) else (weekday / 3 + 6, weekday % 3 + 4)
  }

  /** The three markers land in their regions of the board, on playable
      cells, and on three different cells. */
  lemma MarkersOnBoard(month: int, day: int, weekday: int)
    requires ValidDate(month, day, weekday)
    ensures var m := MonthCell(month); 0 <= m.0 <= 1 && 0 <= m.1 <= 5 && IsBoardCell(m)
    ensures var d := DayCell(day); 2 <= d.0 <= 6 && 0 <= d.1 < COLS && IsBoardCell(d)
    ensures var w := WeekdayCell(weekday);
      IsBoardCell(w) && (if weekday == 6 then w == (6, 3) else 6 <= w.0 <= 7 && 4 <= w.1 <= 6)
    ensures MonthCell(month) != DayCell(day)
    ensures MonthCell(month) != WeekdayCell(weekday)
    ensures DayCell(day) != WeekdayCell(weekday)
  {
  }

  /** The grid after `__init_board` and `__set_date`. */
  function DateGrid(month: int, day: int, weekday: int): Grid
    requires ValidDate(month, day, weekday)
  {
    MarkersOnBoard(month, day, weekday);
    var g1 := SetCell(InitialGrid(), MonthCell(month), MONTH_MARK);
    var g2 := SetCell(g1, DayCell(day), DAY_MARK);
    SetCell(g2, WeekdayCell(weekday), WEEKDAY_MARK)
  }

  /** No marker overwrites another: each of the three cells holds its own
      mark, and every other cell is as `__init_board` left it. */
  lemma DateGridCells(month: int, day: int, weekday: int)
    requires ValidDate(month, day, weekday)
    ensures IsGrid(DateGrid(month, day, weekday))
    ensures At(DateGrid(month, day, weekday), MonthCell(month)) == MONTH_MARK
    ensures At(DateGrid(month, day, weekday), DayCell(day)) == DAY_MARK
    ensures At(DateGrid(month, day, weekday), WeekdayCell(weekday)) == WEEKDAY_MARK
    ensures forall x :: InBounds(x) && x != MonthCell(month) && x != DayCell(day) && x != WeekdayCell(weekday) ==>
      At(DateGrid(month, day, weekday), x) == At(InitialGrid(), x)
  {
    MarkersOnBoard(month, day, weekday);
  }

  // ---- Counting OPEN cells ----

  /** The set of OPEN cells of a grid. */
  ghost function OpenCells(g: Grid): set<Cell>
    requires IsGrid(g)
  {
    set r, c | 0 <= r < ROWS && 0 <= c < COLS && g[r][c] == OPEN :: (r, c)
  }

  /** A grid none of whose cells is OPEN has no OPEN cells. */
  lemma NoOpenCells(g: Grid)
    requires IsGrid(g)
    requires forall x :: InBounds(x) ==> At(g, x) != OPEN
    ensures OpenCells(g) == {}
  {
    forall r, c | 0 <= r < ROWS && 0 <= c < COLS ensures g[r][c] != OPEN {
      assert At(g, (r, c)) != OPEN;
    }
  }

  /** The OPEN cells of row `r` from column `i` on. */
  ghost function OpenInRowFrom(g: Grid, r: int, i: nat): set<Cell>
    requires IsGrid(g) && 0 <= r < ROWS
  {
    set c | i <= c < COLS && g[r][c] == OPEN :: (r, c)
  }

  /** The OPEN cells from row `i` on. */
  ghost function OpenInRowsFrom(g: Grid, i: nat): set<Cell>
    requires IsGrid(g)
  {
    set r, c | i <= r < ROWS && 0 <= c < COLS && g[r][c] == OPEN :: (r, c)
  }

  /** The number of OPEN characters in `row` from index `i` on. */
  function CountOpen(row: seq<char>, i: nat): nat
    decreases |row| - i
  {
    if i >= |row| then 0 else (if row[i] == OPEN then 1 else 0) + CountOpen(row, i + 1)
  }

  /** The number of OPEN cells from row `i` on. */
  function CountOpenRows(g: Grid, i: nat): nat
    decreases |g| - i
  {
    if i >= |g| then 0 else CountOpen(g[i], 0) + CountOpenRows(g, i + 1)
  }

  lemma {:induction false} OpenInRowCount(g: Grid, r: int, i: nat)
    requires IsGrid(g) && 0 <= r < ROWS && i <= COLS
    ensures |OpenInRowFrom(g, r, i)| == CountOpen(g[r], i)
    decreases COLS - i
  {
    if i < COLS {
      OpenInRowCount(g, r, i + 1);
      var here: set<Cell> := if g[r][i] == OPEN then {(r, i)} else {};
      assert OpenInRowFrom(g, r, i) == here + OpenInRowFrom(g, r, i + 1);
      assert (r, i) !in OpenInRowFrom(g, r, i + 1);
    } else {
      assert OpenInRowFrom(g, r, i) == {};
    }
  }

  lemma {:induction false} OpenInRowsCount(g: Grid, i: nat)
    requires IsGrid(g) && i <= ROWS
    ensures |OpenInRowsFrom(g, i)| == CountOpenRows(g, i)
    decreases ROWS - i
  {
    if i < ROWS {
      OpenInRowsCount(g, i + 1);
      OpenInRowCount(g, i, 0);
      assert OpenInRowsFrom(g, i) == OpenInRowFrom(g, i, 0) + OpenInRowsFrom(g, i + 1);
      assert OpenInRowFrom(g, i, 0) * OpenInRowsFrom(g, i + 1) == {};
    } else {
      assert OpenInRowsFrom(g, i) == {};
    }
  }

  /** The number of OPEN cells is what counting row by row gives. */
  lemma OpenCellsCount(g: Grid)
    requires IsGrid(g)
    ensures |OpenCells(g)| == CountOpenRows(g, 0)
  {
    OpenInRowsCount(g, 0);
    assert OpenCells(g) == OpenInRowsFrom(g, 0);
  }

  /** Covering one OPEN cell removes exactly that cell from the OPEN cells. */
  lemma CoverOneCell(g: Grid, x: Cell, ch: char)
    requires IsGrid(g) && InBounds(x) && At(g, x) == OPEN && ch != OPEN
    ensures OpenCells(SetCell(g, x, ch)) == OpenCells(g) - {x}
    ensures |OpenCells(SetCell(g, x, ch))| == |OpenCells(g)| - 1
  {
    var h := SetCell(g, x, ch);
    forall y | y in OpenCells(h) ensures y in OpenCells(g) - {x} {
      assert At(h, y) == OPEN;
    }
    forall y | y in OpenCells(g) - {x} ensures y in OpenCells(h) {
      assert At(g, y) == OPEN;
    }
  }

  /** `__init_board` leaves these rows. */
  lemma InitialRows()
    ensures InitialGrid() == ["------ ", "------ ", "-------", "-------", "-------", "-------", "-------", "    ---"]
  {
    var g := InitialGrid();
    assert g[0] == g[1] == "------ ";
    assert g[2] == g[3] == g[4] == g[5] == g[6] == "-------";
    assert g[7] == "    ---";
  }

  lemma RowCounts()
    ensures CountOpen("------ ", 0) == 6
    ensures CountOpen("-------", 0) == 7
    ensures CountOpen("    ---", 0) == 3
  {
  }

  lemma InitialCount()
    ensures CountOpenRows(["------ ", "------ ", "-------", "-------", "-------", "-------", "-------", "    ---"], 0) == 50
  {
    RowCounts();
  }

  /** `__init_board` opens 50 cells. */
  lemma InitialOpenCells()
    ensures |OpenCells(InitialGrid())| == 50
  {
    InitialRows();
    InitialCount();
    OpenCellsCount(InitialGrid());
  }

  /** After the three markers, 47 cells are OPEN: exactly as many as the ten
      pieces have cells together. */
  lemma DateOpenCells(month: int, day: int, weekday: int)
    requires ValidDate(month, day, weekday)
    ensures |OpenCells(DateGrid(month, day, weekday))| == 47 == CellsOfFirst(|PIECES|)
  {
    MarkersOnBoard(month, day, weekday);
    InitialOpenCells();
    var g1 := SetCell(InitialGrid(), MonthCell(month), MONTH_MARK);
    CoverOneCell(InitialGrid(), MonthCell(month), MONTH_MARK);
    var g2 := SetCell(g1, DayCell(day), DAY_MARK);
    CoverOneCell(g1, DayCell(day), DAY_MARK);
    CoverOneCell(g2, WeekdayCell(weekday), WEEKDAY_MARK);
    TotalCells();
  }
}
