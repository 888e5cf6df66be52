/** The `Board` class of the daily calendar puzzle: an 8 x 7 grid, kept as a
    list of rows that its methods update in place, with the board layout, the
    date markers, the placement check and the backtracking search. */
module DailyPuzzle {
  import opened Geometry
  import opened Layout
  import opened Search
  import opened Codec

  /** What a lookup in the solution cache found. */
  datatype Lookup =
    | Miss       // no entry for this date
    | Hit        // every cell copied from the entry
    | Malformed  // the entry lacks a cell: the copy raised IndexError part-way

  /** The text shown to the user and the entry handed to the cache. */
  datatype Reply = Reply(shown: string, stored: Option<string>)

  class Board {
    /** `self[r][c]` for r < ROWS, c < COLS. */
    var rows: Grid

    ghost predicate Valid()
      reads this
    {
      IsGrid(rows) && NoNewline(rows)
    }

    /** `Board(today)`: a blank grid, then `__init_board` and `__set_date`. */
    constructor (month: int, day: int, weekday: int)
      requires ValidDate(month, day, weekday)
      ensures Valid()
      ensures rows == DateGrid(month, day, weekday)
    {
      rows := seq(ROWS, _ => seq(COLS, _ => BLANK));
      new;
      InitBoard();
      GridsEqual(rows, InitialGrid());
      SetDate(month, day, weekday);
      DateGridCells(month, day, weekday);
      GridsEqual(rows, DateGrid(month, day, weekday));
    }

    /** `__init_board`: opens rows 0-1 up to column 5, rows 2-6, and columns
        4-6 of row 7; every other cell keeps its value. */
    method InitBoard()
      requires Valid()
      modifies this
      ensures Valid()
      ensures forall x :: InBounds(x) ==> At(rows, x) == if IsBoardCell(x) then OPEN else At(old(rows), x)
    {
      var r := 0;
      while r < 2
        invariant 0 <= r <= 2
        invariant Valid()
        invariant forall x :: InBounds(x) ==>
          At(rows, x) == if x.0 < r && x.1 < 6 then OPEN else At(old(rows), x)
      {
        var c := 0;
        while c < 6
          invariant 0 <= c <= 6
          invariant Valid()
          invariant forall x :: InBounds(x) ==>
            At(rows, x) == if (x.0 < r && x.1 < 6) || (x.0 == r && x.1 < c) then OPEN else At(old(rows), x)
        {
          rows := SetCell(rows, (r, c), OPEN);
          c := c + 1;
        }
        r := r + 1;
      }
      r := 2;
      while r < 7
        invariant 2 <= r <= 7
        invariant Valid()
        invariant forall x :: InBounds(x) ==>
          At(rows, x) == if (x.0 < 2 && x.1 < 6) || (2 <= x.0 < r) then OPEN else At(old(rows), x)
      {
        var c := 0;
        while c < COLS
          invariant 0 <= c <= COLS
          invariant Valid()
          invariant forall x :: InBounds(x) ==>
            At(rows, x) == if (x.0 < 2 && x.1 < 6) || (2 <= x.0 < r) || (x.0 == r && x.1 < c) then OPEN else At(old(rows), x)
        {
          rows := SetCell(rows, (r, c), OPEN);
          c := c + 1;
        }
        r := r + 1;
      }
      var c := 4;
      while c < COLS
        invariant 4 <= c <= COLS
        invariant Valid()
        invariant forall x :: InBounds(x) ==>
          At(rows, x) == if (x.0 < 2 && x.1 < 6) || (2 <= x.0 < 7) || (x.0 == 7 && 4 <= x.1 < c) then OPEN else At(old(rows), x)
      {
        rows := SetCell(rows, (7, c), OPEN);
        c := c + 1;
      }
    }

    /** `__set_date`: writes 'M', 'D' and 'W' on the cells of the month, the
        day and the weekday. The three cells differ, so all three marks
        survive; every other cell keeps its value. */
    method SetDate(month: int, day: int, weekday: int)
      requires Valid() && ValidDate(month, day, weekday)
      modifies this
      ensures Valid()
      ensures At(rows, MonthCell(month)) == MONTH_MARK
      ensures At(rows, DayCell(day)) == DAY_MARK
      ensures At(rows, WeekdayCell(weekday)) == WEEKDAY_MARK
      ensures forall x :: InBounds(x) && x != MonthCell(month) && x != DayCell(day) && x != WeekdayCell(weekday) ==>
        At(rows, x) == At(old(rows), x)
    {
      MarkersOnBoard(month, day, weekday);
      var m := month - 1;
      rows := SetCell(rows, (m / 6, m % 6), MONTH_MARK);
      var d := day - 1;
      rows := SetCell(rows, (d / 7 + 2, d % 7), DAY_MARK);
      var w := weekday;
      if w == 6 {
        rows := SetCell(rows, (6, 3), WEEKDAY_MARK);
      } else {
        rows := SetCell(rows, (w / 3 + 6, w % 3 + 4), WEEKDAY_MARK);
      }
    }

    /** `__can_place_at`: checks the offsets in order, stopping at the first
        whose cell is off the grid or not OPEN. `coords` lists the absolute
        cells of the offsets accepted so far; it is the whole footprint
        exactly when the orientation fits. The grid is only read. */
    method CanPlaceAt(orientation: Orientation, boardR: int, boardC: int) returns (canPlace: bool, coords: seq<Cell>)
      requires Valid()
      ensures canPlace <==> Fits(rows, orientation, boardR, boardC)
      ensures |coords| <= |orientation|
      ensures coords == Footprint(orientation[..|coords|], boardR, boardC)
      ensures forall i :: 0 <= i < |coords| ==> Free(rows, coords[i])
      ensures canPlace ==> coords == Footprint(orientation, boardR, boardC)
      ensures !canPlace ==>
        |coords| < |orientation| && !Free(rows, (boardR + orientation[|coords|].0, boardC + orientation[|coords|].1))
    {
      coords := [];
      var i := 0;
      while i < |orientation|
        invariant 0 <= i <= |orientation|
        invariant |coords| == i
        invariant coords == Footprint(orientation[..i], boardR, boardC)
        invariant forall k :: 0 <= k < i ==> Free(rows, coords[k])
        invariant forall k :: 0 <= k < i ==> Free(rows, (boardR + orientation[k].0, boardC + orientation[k].1))
      {
        var (dr, dc) := orientation[i];
        var c := boardC + dc;
        if c < 0 || c >= COLS {
          return false, coords;
        }
        var r := boardR + dr;
        if r < 0 || r >= ROWS {
          return false, coords;
        }
        if rows[r][c] != OPEN {
          return false, coords;
        }
        coords := coords + [(r, c)];
        i := i + 1;
        assert orientation[..i][..i - 1] == orientation[..i - 1];
      }
      assert orientation[..i] == orientation;
      return true, coords;
    }

    /** `for pr, pc in coords: self[pr][pc] = ch`. */
    method WriteCells(coords: seq<Cell>, ch: char)
      requires Valid() && ch != '\n'
      requires forall i :: 0 <= i < |coords| ==> InBounds(coords[i])
      modifies this
      ensures Valid()
      ensures rows == Fill(old(rows), coords, ch)
    {
      var i := 0;
      while i < |coords|
        invariant 0 <= i <= |coords|
        invariant IsGrid(rows)
        invariant rows == Fill(old(rows), coords[..i], ch)
      {
        rows := SetCell(rows, coords[i], ch);
        i := i + 1;
        assert coords[..i][..i - 1] == coords[..i - 1];
      }
      assert coords[..i] == coords;
      FillAt(old(rows), coords, ch);
      forall r | 0 <= r < ROWS ensures '\n' !in rows[r] {
        forall c | 0 <= c < COLS ensures rows[r][c] != '\n' {
          assert At(rows, (r, c)) != '\n';
        }
      }
    }

    /** `__solve(working_on)`: depth-first search placing pieces
        working_on .. 9 in order, trying each orientation at each anchor in
        row-major order. It only ever writes over OPEN cells. On failure the
        grid is exactly as on entry; on success every piece from working_on
        on occupies the cells of one of its orientations at some anchor. */
    method Solve(workingOn: nat) returns (solved: bool)
      requires Valid() && workingOn <= |PIECES|
      modifies this
      decreases |PIECES| - workingOn, 2
      ensures Valid()
      ensures Extends(old(rows), rows, workingOn)
      ensures !solved ==> rows == old(rows)
      ensures solved ==> forall j :: workingOn <= j < |PIECES| ==> Covers(old(rows), rows, j)
      ensures workingOn == |PIECES| ==> solved && rows == old(rows)
      ensures solved <==> Solvable(old(rows), workingOn)
    {
      if workingOn == |PIECES| {
        return true;
      }
      var p := 0;
      while p < |PIECES[workingOn]|
        invariant p <= |PIECES[workingOn]|
        invariant Valid() && rows == old(rows)
        invariant forall o, x :: 0 <= o < p && InBounds(x) ==> !Works(old(rows), workingOn, o, x.0, x.1)
      {
        solved := TryOrientation(workingOn, p);
        if solved {
          return;
        }
        forall o, x | 0 <= o < p + 1 && InBounds(x)
          ensures !Works(old(rows), workingOn, o, x.0, x.1)
        {
        }
        p := p + 1;
      }
      NoneWorks(old(rows), workingOn);
      return false;
    }

    /** The loop of `__solve` over the anchors, in row-major order, for
        orientation p of piece `workingOn`. It stops at the first anchor
        where the trial succeeds; when none does, no anchor works for this
        orientation and the grid is as on entry. */
    method TryOrientation(workingOn: nat, p: nat) returns (solved: bool)
      requires Valid() && workingOn < |PIECES| && p < |PIECES[workingOn]|
      modifies this
      decreases |PIECES| - workingOn, 1
      ensures Valid()
      ensures Extends(old(rows), rows, workingOn)
      ensures !solved ==> rows == old(rows)
      ensures !solved ==> forall x :: InBounds(x) ==> !Works(old(rows), workingOn, p, x.0, x.1)
      ensures solved ==> Solvable(old(rows), workingOn)
      ensures solved ==> forall j :: workingOn <= j < |PIECES| ==> Covers(old(rows), rows, j)
    {
      var r := 0;
      while r < ROWS
        invariant r <= ROWS
        invariant Valid() && rows == old(rows)
        invariant forall x :: InBounds(x) && x.0 < r ==> !Works(old(rows), workingOn, p, x.0, x.1)
      {
        var c := 0;
        while c < COLS
          invariant c <= COLS
          invariant Valid() && rows == old(rows)
          invariant forall x :: InBounds(x) && x.0 < r ==> !Works(old(rows), workingOn, p, x.0, x.1)
          invariant forall x :: InBounds(x) && x.0 == r && x.1 < c ==> !Works(old(rows), workingOn, p, x.0, x.1)
        {
          solved := TryAt(workingOn, p, r, c);
          if solved {
            WorksSolvable(old(rows), workingOn, p, r, c);
            return;
          }
          forall x | InBounds(x) && x.0 == r && x.1 < c + 1
            ensures !Works(old(rows), workingOn, p, x.0, x.1)
          {
            if x.1 == c {
              assert x == (r, c);
            }
          }
          c := c + 1;
        }
        r := r + 1;
      }
      return false;
    }

    /** One trial of `__solve`: orientation p of piece `workingOn` at anchor
        (r, c). When it fits, the digit is written over its cells and the
        search goes on with the next piece; when that fails, OPEN is written
        back. The trial succeeds exactly when the placement works. */
    method TryAt(workingOn: nat, p: nat, r: int, c: int) returns (solved: bool)
      requires Valid() && workingOn < |PIECES| && p < |PIECES[workingOn]| && InBounds((r, c))
      modifies this
      decreases |PIECES| - workingOn, 0
      ensures Valid()
      ensures Extends(old(rows), rows, workingOn)
      ensures !solved ==> rows == old(rows)
      ensures solved ==> forall j :: workingOn <= j < |PIECES| ==> Covers(old(rows), rows, j)
      ensures solved <==> Works(old(rows), workingOn, p, r, c)
    {
      var canPlace, coords := CanPlaceAt(PIECES[workingOn][p], r, c);
      if !canPlace {
        return false;
      }
      WriteCells(coords, Mark(workingOn));
      solved := Solve(workingOn + 1);
      if solved {
        PlaceThenSolve(old(rows), rows, workingOn, p, r, c);
        return;
      }
      WriteCells(coords, OPEN);
      PlaceThenUndo(old(rows), coords, Mark(workingOn));
    }

    /** One row of the copy loop of `__db_get`: cells (r, 0), (r, 1), ...
        are copied from line r of the entry until the row is done or the
        line runs out; `c` is where it stopped. */
    method CopyRow(ghost start: Grid, solution: seq<string>, r: int) returns (c: int)
      requires Valid() && IsGrid(start) && 0 <= r < ROWS
      requires forall i :: 0 <= i < |solution| ==> '\n' !in solution[i]
      requires PresentBefore(solution, (r, 0))
      requires rows == CopiedBefore(start, solution, (r, 0))
      modifies this
      ensures Valid() && 0 <= c <= COLS
      ensures PresentBefore(solution, (r, c))
      ensures rows == CopiedBefore(start, solution, (r, c))
      ensures c < COLS ==> !Present(solution, (r, c))
    {
      c := 0;
      while c < COLS
        invariant 0 <= c <= COLS
        invariant Valid()
        invariant PresentBefore(solution, (r, c))
        invariant rows == CopiedBefore(start, solution, (r, c))
      {
        if r >= |solution| || c >= |solution[r]| {
          return;
        }
        CopyStep(start, solution, (r, c));
        SetCellNoNewline(rows, (r, c), solution[r][c]);
        rows := SetCell(rows, (r, c), solution[r][c]);
        c := c + 1;
      }
    }

    /** The copy loop of `__db_get` over the lines of a stored entry: cell
        (r, c) is copied from line r, column c in row-major order, stopping
        with IndexError (`complete` false) at the first cell the lines lack. */
    method LoadLines(solution: seq<string>) returns (complete: bool)
      requires Valid()
      requires forall i :: 0 <= i < |solution| ==> '\n' !in solution[i]
      modifies this
      ensures Valid()
      ensures complete <==> FirstGap(solution, 0).None?
      ensures rows == PartialLoad(old(rows), solution)
    {
      CopyNothing(rows, solution);
      var r := 0;
      while r < ROWS
        invariant 0 <= r <= ROWS
        invariant Valid()
        invariant PresentBefore(solution, (r, 0))
        invariant rows == CopiedBefore(old(rows), solution, (r, 0))
      {
        var c := CopyRow(old(rows), solution, r);
        if c < COLS {
          GapFound(solution, (r, c));
          return false;
        }
        CopyNextRow(old(rows), solution, r);
        r := r + 1;
      }
      NoGapLeft(solution);
      return true;
    }

    /** `__db_get` given what the cache holds for this date: on a miss the
        grid is untouched; otherwise the stored entry is split into lines and
        copied in. */
    method LoadCached(entry: Option<string>) returns (status: Lookup)
      requires Valid()
      modifies this
      ensures Valid()
      ensures entry.None? <==> status == Miss
      ensures entry.None? ==> rows == old(rows)
      ensures status == Hit <==> entry.Some? && Decode(entry.value).Some?
      ensures status == Hit ==> rows == Decode(entry.value).value
      ensures status == Malformed ==> rows == PartialLoad(old(rows), Split(entry.value, '\n'))
    {
      if entry.None? {
        return Miss;
      }
      var complete := LoadLines(Split(entry.value, '\n'));
      NoGapDecodes(entry.value);
      if complete {
        CopiedAllDecodes(old(rows), entry.value);
        return Hit;
      }
      return Malformed;
    }

    /** `get`: the cached solution when there is one; otherwise search from
        the current grid and hand the resulting grid to the cache. The
        search's result is not looked at, so a grid the search could not
        complete is stored and shown as it is. None stands for the IndexError
        raised by a malformed cache entry. */
    method Get(entry: Option<string>) returns (reply: Option<Reply>)
      requires Valid()
      modifies this
      ensures Valid()
      ensures entry.Some? && Decode(entry.value).Some? ==>
        rows == Decode(entry.value).value && reply == Some(Reply(Render(rows), None))
      ensures entry.Some? && Decode(entry.value).None? ==>
        reply == None && rows == PartialLoad(old(rows), Split(entry.value, '\n'))
      ensures entry.None? ==>
        reply == Some(Reply(Render(rows), Some(Encode(rows)))) &&
        Extends(old(rows), rows, 0) &&
        (Solvable(old(rows), 0) ==> forall j :: 0 <= j < |PIECES| ==> Covers(old(rows), rows, j)) &&
        (!Solvable(old(rows), 0) ==> rows == old(rows))
    {
      var status := LoadCached(entry);
      if status == Hit {
        return Some(Reply(Render(rows), None));
      } else if status == Malformed {
        return None;
      }
      var _ := Solve(0);
      return Some(Reply(Render(rows), Some(Encode(rows))));
    }
  }

  /** A search from the grid of a date that placed every piece leaves no
      OPEN cell, and the three date marks and the blank cells off the board
      are where `__init_board` and `__set_date` put them. */
  lemma SolvedDateBoard(month: int, day: int, weekday: int, after: Grid)
    requires ValidDate(month, day, weekday)
    requires Extends(DateGrid(month, day, weekday), after, 0)
    requires forall j :: 0 <= j < |PIECES| ==> Covers(DateGrid(month, day, weekday), after, j)
    ensures OpenCells(after) == {}
    ensures At(after, MonthCell(month)) == MONTH_MARK
    ensures At(after, DayCell(day)) == DAY_MARK
    ensures At(after, WeekdayCell(weekday)) == WEEKDAY_MARK
    ensures forall x :: InBounds(x) && !IsBoardCell(x) ==> At(after, x) == BLANK
  {
    var start := DateGrid(month, day, weekday);
    MarkersOnBoard(month, day, weekday);
    DateGridCells(month, day, weekday);
    DateOpenCells(month, day, weekday);
    SolvedGridIsFull(start, after);
  }
}
