/** The text forms of a grid: the newline-joined rows stored in the solution
    cache (`__db_put`), their decoding by `split('\n')` and `[r][c]` indexing
    (`__db_get`), and the space-separated rendering of `__repr__`. */
module Codec {
  import opened Layout

  datatype Option<T> = None | Some(value: T)

  /** `sep.join(parts)`. */
  function Join(parts: seq<string>, sep: char): string {
    if |parts| == 0 then ""
    else if |parts| == 1 then parts[0]
    else parts[0] + [sep] + Join(parts[1..], sep)
  }

  /** `s.split(sep)` for a one-character separator: the pieces between
      separators, so there is always one more piece than separators. */
  function Split(s: string, sep: char): (parts: seq<string>)
    ensures |parts| >= 1
    ensures forall i :: 0 <= i < |parts| ==> sep !in parts[i]
    ensures Join(parts, sep) == s
    decreases |s|
  {
    if |s| == 0 then [""]
    else
      var rest := Split(s[1..], sep);
      if s[0] == sep then [""] + rest
      else [[s[0]] + rest[0]] + rest[1..]
  }

  lemma {:induction false} SplitNoSeparator(s: string, sep: char)
    requires sep !in s
    ensures Split(s, sep) == [s]
    decreases |s|
  {
    if |s| > 0 {
      SplitNoSeparator(s[1..], sep);
      assert [s[0]] + s[1..] == s;
    }
  }

  lemma {:induction false} SplitAfterPart(p: string, sep: char, t: string)
    requires sep !in p
    ensures Split(p + [sep] + t, sep) == [p] + Split(t, sep)
    decreases |p|
  {
    if |p| == 0 {
      assert p + [sep] + t == [sep] + t;
      assert ([sep] + t)[1..] == t;
    } else {
      var u := p + [sep] + t;
      assert u[0] == p[0] != sep;
      assert u[1..] == p[1..] + [sep] + t;
      SplitAfterPart(p[1..], sep, t);
      assert [p[0]] + p[1..] == p;
    }
  }

  /** Splitting a joined list gives the list back when no part holds the
      separator. */
  lemma {:induction false} SplitJoin(parts: seq<string>, sep: char)
    requires |parts| >= 1
    requires forall i :: 0 <= i < |parts| ==> sep !in parts[i]
    ensures Split(Join(parts, sep), sep) == parts
  {
    if |parts| == 1 {
      SplitNoSeparator(parts[0], sep);
    } else {
      SplitJoin(parts[1..], sep);
      SplitAfterPart(parts[0], sep, Join(parts[1..], sep));
      assert [parts[0]] + parts[1..] == parts;
    }
  }

  // ---- The cache text (__db_put / __db_get) ----

  /** No cell of the grid is a line break. */
  predicate NoNewline(g: Grid) {
    forall r :: 0 <= r < |g| ==> '\n' !in g[r]
  }

  /** Writing a character other than a newline into a cell keeps the grid
      free of newlines. */
  lemma SetCellNoNewline(g: Grid, x: Cell, ch: char)
    requires IsGrid(g) && InBounds(x) && NoNewline(g) && ch != '\n'
    ensures NoNewline(SetCell(g, x, ch))
  {
    var h := SetCell(g, x, ch);
    forall r | 0 <= r < |h| ensures '\n' !in h[r] {
      if r == x.0 {
        assert h[r] == g[r][x.1 := ch];
      } else {
        assert h[r] == g[r];
      }
    }
  }

  /** `'\n'.join([''.join(r) for r in self])`: a row of one-character cells
      joined with '' is the row itself. */
  function Encode(g: Grid): string {
    Join(g, '\n')
  }

  /** The stored text holds every cell: at least ROWS lines, each with at
      least COLS characters. */
  predicate CoversGrid(lines: seq<string>) {
    |lines| >= ROWS && forall r :: 0 <= r < ROWS ==> |lines[r]| >= COLS
  }

  /** `solution.split('\n')` followed by `self[r][c] = solution[r][c]` for
      every cell; None where that indexing would raise IndexError. */
  function Decode(s: string): (d: Option<Grid>)
    ensures d.Some? ==> IsGrid(d.value) && NoNewline(d.value)
  {
    var lines := Split(s, '\n');
    if CoversGrid(lines) then Some(seq(ROWS, r requires 0 <= r < ROWS => lines[r][..COLS])) else None
  }

  /** Round trip: decoding the stored text of a grid restores every cell. */
  lemma DecodeEncode(g: Grid)
    requires IsGrid(g) && NoNewline(g)
    ensures Decode(Encode(g)) == Some(g)
  {
    SplitJoin(g, '\n');
    var d := seq(ROWS, r requires 0 <= r < ROWS => g[r][..COLS]);
    forall r | 0 <= r < ROWS ensures d[r] == g[r] {
      assert g[r][..COLS] == g[r];
    }
    assert d == g;
  }

  /** The other direction: text that decodes and holds exactly ROWS lines of
      COLS characters is the stored text of what it decodes to. */
  lemma EncodeDecode(s: string)
    requires Decode(s).Some?
    requires |Split(s, '\n')| == ROWS
    requires forall r :: 0 <= r < ROWS ==> |Split(s, '\n')[r]| == COLS
    ensures Encode(Decode(s).value) == s
  {
    var lines := Split(s, '\n');
    assert Decode(s).value == lines by {
      forall r | 0 <= r < ROWS ensures lines[r][..COLS] == lines[r] { }
    }
  }

  /** `solution[x.0][x.1]` exists. */
  predicate Present(lines: seq<string>, x: Cell) {
    0 <= x.0 < |lines| && 0 <= x.1 < |lines[x.0]|
  }

  /** `x` comes before `y` in row-major order. */
  predicate Precedes(x: Cell, y: Cell) {
    x.0 < y.0 || (x.0 == y.0 && x.1 < y.1)
  }

  /** The first cell, in row-major order from row `r` on, that the stored
      lines do not have; None when they have every cell. */
  function FirstGap(lines: seq<string>, r: nat): (gap: Option<Cell>)
    ensures gap.Some? ==> InBounds(gap.value) && r <= gap.value.0 && !Present(lines, gap.value)
    ensures forall x :: InBounds(x) && r <= x.0 && (gap.None? || Precedes(x, gap.value)) ==> Present(lines, x)
    decreases ROWS - r
  {
    if r >= ROWS then None
    else if r >= |lines| then Some((r, 0))
    else if |lines[r]| < COLS then Some((r, |lines[r]|))
    else FirstGap(lines, r + 1)
  }

  /** The stored lines have every cell exactly when decoding succeeds. */
  lemma NoGapDecodes(s: string)
    ensures FirstGap(Split(s, '\n'), 0).None? <==> Decode(s).Some?
  {
    var lines := Split(s, '\n');
    if FirstGap(lines, 0).None? {
      assert |lines| >= ROWS by {
        assert Present(lines, (ROWS - 1, 0));
      }
      forall r | 0 <= r < ROWS ensures |lines[r]| >= COLS {
        assert Present(lines, (r, COLS - 1));
      }
    }
  }

  /** All cells before `x` in row-major order are in the stored lines. */
  ghost predicate PresentBefore(lines: seq<string>, x: Cell) {
    forall y :: InBounds(y) && Precedes(y, x) ==> Present(lines, y)
  }

  /** `g` with every cell before `x`, in row-major order, copied from the
      stored lines. */
  function CopiedBefore(g: Grid, lines: seq<string>, x: Cell): (h: Grid)
    requires IsGrid(g) && PresentBefore(lines, x)
    ensures IsGrid(h)
    ensures NoNewline(g) && (forall i :: 0 <= i < |lines| ==> '\n' !in lines[i]) ==> NoNewline(h)
  {
    seq(ROWS, r requires 0 <= r < ROWS =>
      seq(COLS, c requires 0 <= c < COLS =>
        if Precedes((r, c), x) then lines[r][c] else g[r][c]))
  }

  /** Before the first cell nothing is copied. */
  lemma CopyNothing(g: Grid, lines: seq<string>)
    requires IsGrid(g)
    ensures PresentBefore(lines, (0, 0))
    ensures CopiedBefore(g, lines, (0, 0)) == g
  {
    GridsEqual(CopiedBefore(g, lines, (0, 0)), g);
  }

  /** Copying cell `x` extends the copied region by one cell. */
  lemma CopyStep(g: Grid, lines: seq<string>, x: Cell)
    requires IsGrid(g) && InBounds(x) && PresentBefore(lines, x) && Present(lines, x)
    ensures PresentBefore(lines, (x.0, x.1 + 1))
    ensures SetCell(CopiedBefore(g, lines, x), x, lines[x.0][x.1]) == CopiedBefore(g, lines, (x.0, x.1 + 1))
  {
    GridsEqual(SetCell(CopiedBefore(g, lines, x), x, lines[x.0][x.1]), CopiedBefore(g, lines, (x.0, x.1 + 1)));
  }

  /** The end of one row is the start of the next. */
  lemma CopyNextRow(g: Grid, lines: seq<string>, r: int)
    requires IsGrid(g) && PresentBefore(lines, (r, COLS))
    ensures PresentBefore(lines, (r + 1, 0))
    ensures CopiedBefore(g, lines, (r, COLS)) == CopiedBefore(g, lines, (r + 1, 0))
  {
    GridsEqual(CopiedBefore(g, lines, (r, COLS)), CopiedBefore(g, lines, (r + 1, 0)));
  }

  /** A missing cell with every earlier cell present is the first gap. */
  lemma GapFound(lines: seq<string>, x: Cell)
    requires InBounds(x) && PresentBefore(lines, x) && !Present(lines, x)
    ensures FirstGap(lines, 0) == Some(x)
  {
    var gap := FirstGap(lines, 0);
    assert gap.Some?;
    assert !Precedes(gap.value, x) && !Precedes(x, gap.value);
  }

  /** With every cell present there is no gap. */
  lemma NoGapLeft(lines: seq<string>)
    requires PresentBefore(lines, (ROWS, 0))
    ensures FirstGap(lines, 0).None?
  {
    var gap := FirstGap(lines, 0);
    if gap.Some? {
      assert Precedes(gap.value, (ROWS, 0));
    }
  }

  /** The grid the copy loop of `__db_get` leaves behind in `g` when it runs
      until the first missing cell: every cell before it copied from the
      stored lines, every other cell as it was. */
  function PartialLoad(g: Grid, lines: seq<string>): (h: Grid)
    requires IsGrid(g)
    ensures IsGrid(h)
  {
    var gap := FirstGap(lines, 0);
    CopiedBefore(g, lines, if gap.None? then (ROWS, 0) else gap.value)
  }

  /** Copying every cell of a decodable entry gives what it decodes to. */
  lemma CopiedAllDecodes(g: Grid, s: string)
    requires IsGrid(g) && Decode(s).Some?
    ensures PresentBefore(Split(s, '\n'), (ROWS, 0))
    ensures CopiedBefore(g, Split(s, '\n'), (ROWS, 0)) == Decode(s).value
  {
    GridsEqual(CopiedBefore(g, Split(s, '\n'), (ROWS, 0)), Decode(s).value);
  }

  // ---- The printed board (__repr__) ----

  /** The cells of a row as one-character strings. */
  function Cells(row: seq<char>): seq<string> {
    seq(|row|, i requires 0 <= i < |row| => [row[i]])
  }

  /** `' '.join(row)`. */
  function SpacedRow(row: seq<char>): string {
    Join(Cells(row), ' ')
  }

  /** `'\n'.join([' '.join(r) for r in self])`. */
  function Render(g: Grid): string {
    Join(seq(|g|, r requires 0 <= r < |g| => SpacedRow(g[r])), '\n')
  }

  /** A spaced row puts cell c at position 2c with a space between cells. */
  lemma {:induction false} SpacedRowLayout(row: seq<char>)
    requires |row| >= 1
    ensures |SpacedRow(row)| == 2 * |row| - 1
    ensures forall c :: 0 <= c < |row| ==> SpacedRow(row)[2 * c] == row[c]
    ensures forall k :: 0 <= k < |SpacedRow(row)| && k % 2 == 1 ==> SpacedRow(row)[k] == ' '
  {
    if |row| > 1 {
      var tail := SpacedRow(row[1..]);
      SpacedRowLayout(row[1..]);
      assert Cells(row)[1..] == Cells(row[1..]);
      assert SpacedRow(row) == [row[0]] + [' '] + tail;
      forall c | 1 <= c < |row| ensures SpacedRow(row)[2 * c] == row[c] {
        assert SpacedRow(row)[2 * c] == tail[2 * (c - 1)];
      }
      forall k | 2 < k < |SpacedRow(row)| && k % 2 == 1 ensures SpacedRow(row)[k] == ' ' {
        assert SpacedRow(row)[k] == tail[k - 2];
      }
    }
  }

  /** The printed board has ROWS lines of 2 * COLS - 1 characters: the
      cells at even positions, single spaces between them. */
  lemma RenderLayout(g: Grid)
    requires IsGrid(g) && NoNewline(g)
    ensures |Split(Render(g), '\n')| == ROWS
    ensures forall r :: 0 <= r < ROWS ==> |Split(Render(g), '\n')[r]| == 2 * COLS - 1
    ensures forall r, c :: 0 <= r < ROWS && 0 <= c < COLS ==> Split(Render(g), '\n')[r][2 * c] == g[r][c]
    ensures forall r, k :: 0 <= r < ROWS && 0 <= k < 2 * COLS - 1 && k % 2 == 1 ==> Split(Render(g), '\n')[r][k] == ' '
  {
    var lines := seq(|g|, r requires 0 <= r < |g| => SpacedRow(g[r]));
    forall r | 0 <= r < ROWS
      ensures '\n' !in lines[r]
      ensures |lines[r]| == 2 * COLS - 1
      ensures forall c :: 0 <= c < COLS ==> lines[r][2 * c] == g[r][c]
      ensures forall k :: 0 <= k < 2 * COLS - 1 && k % 2 == 1 ==> lines[r][k] == ' '
    {
      SpacedRowLayout(g[r]);
      forall k | 0 <= k < |lines[r]| ensures lines[r][k] != '\n' {
        if k % 2 == 0 {
          assert lines[r][2 * (k / 2)] == g[r][k / 2];
        }
      }
    }
    SplitJoin(lines, '\n');
  }
}
