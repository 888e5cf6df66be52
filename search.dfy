/** What the backtracking search does to the grid, stated on values: where
    an orientation lands, writing a piece's digit over a list of cells and
    writing OPEN back, and what a finished search leaves behind. */
module Search {
  import opened Geometry
  import opened Layout

  /** `str(j)` for a piece index below ten: the digit that names the piece. */
  function Mark(j: nat): (ch: char)
    requires j < 10
    ensures '0' <= ch <= '9'
    ensures ch as int - '0' as int == j
  {
    ('0' as int + j) as char
  }

  /** `ch` is the digit of one of the pieces k, k+1, ..., 9. */
  predicate IsMarkFrom(ch: char, k: nat) {
    k <= ch as int - '0' as int < |PIECES|
  }

  /** The absolute cells of orientation `o` anchored at (r, c), in offset order. */
  function Footprint(o: Orientation, r: int, c: int): seq<Cell> {
    seq(|o|, i requires 0 <= i < |o| => (r + o[i].0, c + o[i].1))
  }

  function CellSet(cs: seq<Cell>): set<Cell> {
    set x | x in cs
  }

  /** A cell a piece may take: inside the grid and OPEN. */
  predicate Free(g: Grid, x: Cell)
    requires IsGrid(g)
  {
    InBounds(x) && At(g, x) == OPEN
  }

  /** Orientation `o` anchored at (r, c) lies on OPEN cells of `g` only. */
  predicate Fits(g: Grid, o: Orientation, r: int, c: int)
    requires IsGrid(g)
  {
    forall i :: 0 <= i < |o| ==> Free(g, (r + o[i].0, c + o[i].1))
  }

  /** `for pr, pc in coords: self[pr][pc] = ch`, one cell after the other. */
  function Fill(g: Grid, cs: seq<Cell>, ch: char): Grid
    requires IsGrid(g)
    requires forall i :: 0 <= i < |cs| ==> InBounds(cs[i])
  {
    if |cs| == 0 then g else SetCell(Fill(g, cs[..|cs| - 1], ch), cs[|cs| - 1], ch)
  }

  /** Writing `ch` over a list of cells sets exactly the listed cells. */
  lemma {:induction false} FillAt(g: Grid, cs: seq<Cell>, ch: char)
    requires IsGrid(g)
    requires forall i :: 0 <= i < |cs| ==> InBounds(cs[i])
    ensures IsGrid(Fill(g, cs, ch))
    ensures forall y :: InBounds(y) ==> At(Fill(g, cs, ch), y) == if y in cs then ch else At(g, y)
  {
    if |cs| > 0 {
      var front := cs[..|cs| - 1];
      FillAt(g, front, ch);
      forall y | InBounds(y)
        ensures At(Fill(g, cs, ch), y) == if y in cs then ch else At(g, y)
      {
        assert y in cs <==> y in front || y == cs[|cs| - 1] by {
          assert cs == front + [cs[|cs| - 1]];
        }
      }
    }
  }

  /** The undo loop inverts the placement loop: writing OPEN back over cells
      that were all OPEN restores the grid exactly. */
  lemma PlaceThenUndo(g: Grid, cs: seq<Cell>, ch: char)
    requires IsGrid(g)
    requires forall i :: 0 <= i < |cs| ==> InBounds(cs[i]) && At(g, cs[i]) == OPEN
    ensures IsGrid(Fill(g, cs, ch))
    ensures Fill(Fill(g, cs, ch), cs, OPEN) == g
  {
    FillAt(g, cs, ch);
    var placed := Fill(g, cs, ch);
    FillAt(placed, cs, OPEN);
    forall y | InBounds(y) ensures At(Fill(placed, cs, OPEN), y) == At(g, y) {
      if y in cs {
        var i :| 0 <= i < |cs| && cs[i] == y;
      }
    }
    GridsEqual(Fill(placed, cs, OPEN), g);
  }

  // ---- What a search leaves behind ----

  /** Every cell either is as it was, or was OPEN and now holds the digit of
      one of the pieces k .. 9. */
  ghost predicate Extends(before: Grid, after: Grid, k: nat) {
    IsGrid(before) && IsGrid(after) &&
    forall x :: InBounds(x) ==>
      At(after, x) == At(before, x) || (At(before, x) == OPEN && IsMarkFrom(At(after, x), k))
  }

  /** The cells the search gave to piece j: OPEN before, digit j after. */
  ghost function Marked(before: Grid, after: Grid, j: nat): set<Cell>
    requires IsGrid(before) && IsGrid(after) && j < 10
  {
    set r, c | 0 <= r < ROWS && 0 <= c < COLS && before[r][c] == OPEN && after[r][c] == Mark(j) :: (r, c)
  }

  /** What membership in Marked means, cell by cell. */
  lemma MarkedCells(before: Grid, after: Grid, j: nat)
    requires IsGrid(before) && IsGrid(after) && j < 10
    ensures forall x :: x in Marked(before, after, j) ==>
      InBounds(x) && At(before, x) == OPEN && At(after, x) == Mark(j)
  {
  }

  /** Two pieces never share a cell: each cell holds one digit. */
  lemma MarksDisjoint(before: Grid, after: Grid, i: nat, j: nat)
    requires IsGrid(before) && IsGrid(after) && i < 10 && j < 10 && i != j
    ensures Marked(before, after, i) * Marked(before, after, j) == {}
  {
    MarkedCells(before, after, i);
    MarkedCells(before, after, j);
  }

  /** Piece j was given exactly orientation o anchored at (r, c). */
  ghost predicate PlacedAt(before: Grid, after: Grid, j: nat, o: int, r: int, c: int)
    requires IsGrid(before) && IsGrid(after) && j < |PIECES|
  {
    0 <= o < |PIECES[j]| && InBounds((r, c)) &&
    Marked(before, after, j) == CellSet(Footprint(PIECES[j][o], r, c))
  }

  /** Piece j covers the cells of one of its orientations at some anchor. */
  ghost predicate Covers(before: Grid, after: Grid, j: nat)
    requires IsGrid(before) && IsGrid(after) && j < |PIECES|
  {
    exists o, r, c :: PlacedAt(before, after, j, o, r, c)
  }

  /** Orientation o of piece k anchored at (r, c) fits on `g`, and from the
      grid with piece k written there pieces k+1 .. 9 can all be placed. */
  ghost predicate Works(g: Grid, k: nat, o: int, r: int, c: int)
    requires IsGrid(g) && k < |PIECES|
    decreases |PIECES| - k, 0
  {
    0 <= o < |PIECES[k]| && InBounds((r, c)) && Fits(g, PIECES[k][o], r, c) &&
    Solvable(Fill(g, Footprint(PIECES[k][o], r, c), Mark(k)), k + 1)
  }

  /** Pieces k .. 9 can be placed on `g`, one after the other, each on OPEN
      cells left by those before it. */
  ghost predicate Solvable(g: Grid, k: nat)
    requires IsGrid(g) && k <= |PIECES|
    decreases |PIECES| - k, 1
  {
    k == |PIECES| || exists o, r, c :: Works(g, k, o, r, c)
  }

  /** A placement that works shows the pieces from k on can be placed. */
  lemma WorksSolvable(g: Grid, k: nat, o: int, r: int, c: int)
    requires IsGrid(g) && k < |PIECES| && Works(g, k, o, r, c)
    ensures Solvable(g, k)
  {
  }

  /** When no orientation works at any anchor, the pieces from k on cannot
      be placed. */
  lemma NoneWorks(g: Grid, k: nat)
    requires IsGrid(g) && k < |PIECES|
    requires forall o, x :: 0 <= o < |PIECES[k]| && InBounds(x) ==> !Works(g, k, o, x.0, x.1)
    ensures !Solvable(g, k)
  {
    forall o, r, c ensures !Works(g, k, o, r, c) {
      if 0 <= o < |PIECES[k]| && InBounds((r, c)) {
        assert !Works(g, k, o, (r, c).0, (r, c).1);
      }
    }
  }

  /** The cells given to piece k by writing its digit over `fp` (all OPEN),
      after which the search for pieces k+1 .. 9 changed the grid further. */
  lemma {:induction false} PlacementMarks(before: Grid, after: Grid, fp: seq<Cell>, k: nat)
    requires IsGrid(before) && k < 10
    requires forall i :: 0 <= i < |fp| ==> InBounds(fp[i]) && At(before, fp[i]) == OPEN
    requires Extends(Fill(before, fp, Mark(k)), after, k + 1)
    ensures Extends(before, after, k)
    ensures Marked(before, after, k) == CellSet(fp)
    ensures forall j :: k < j < 10 ==> Marked(before, after, j) == Marked(Fill(before, fp, Mark(k)), after, j)
  {
    var placed := Fill(before, fp, Mark(k));
    FillAt(before, fp, Mark(k));
    forall x | InBounds(x)
      ensures At(after, x) == At(before, x) || (At(before, x) == OPEN && IsMarkFrom(At(after, x), k))
      ensures x in fp ==> At(before, x) == OPEN && At(after, x) == Mark(k)
      ensures x !in fp ==> At(placed, x) == At(before, x)
      ensures x !in fp && At(before, x) == OPEN ==> At(after, x) != Mark(k)
    {
      if x in fp {
        var i :| 0 <= i < |fp| && fp[i] == x;
      }
    }
    assert Marked(before, after, k) == CellSet(fp);
    forall j | k < j < 10 ensures Marked(before, after, j) == Marked(placed, after, j) {
      forall x | x in Marked(before, after, j) ensures x in Marked(placed, after, j) {
        assert InBounds(x);
      }
      forall x | x in Marked(placed, after, j) ensures x in Marked(before, after, j) {
        assert InBounds(x);
      }
    }
  }

  /** One step of the search: place piece k on cells that fit, then let the
      search for pieces k+1 .. 9 succeed from there. Seen from the grid before
      the placement, pieces k .. 9 are then all placed. */
  lemma PlaceThenSolve(before: Grid, after: Grid, k: nat, o: nat, r: int, c: int)
    requires IsGrid(before) && k < |PIECES| && o < |PIECES[k]| && InBounds((r, c))
    requires Fits(before, PIECES[k][o], r, c)
    requires Extends(Fill(before, Footprint(PIECES[k][o], r, c), Mark(k)), after, k + 1)
    requires forall j :: k < j < |PIECES| ==> Covers(Fill(before, Footprint(PIECES[k][o], r, c), Mark(k)), after, j)
    ensures Extends(before, after, k)
    ensures forall j :: k <= j < |PIECES| ==> Covers(before, after, j)
  {
    var fp := Footprint(PIECES[k][o], r, c);
    var placed := Fill(before, fp, Mark(k));
    PlacementMarks(before, after, fp, k);
    assert PlacedAt(before, after, k, o, r, c);
    forall j | k < j < |PIECES| ensures Covers(before, after, j) {
      assert Covers(placed, after, j);
      var o', r', c' :| PlacedAt(placed, after, j, o', r', c');
      assert PlacedAt(before, after, j, o', r', c');
    }
  }

  // ---- A finished search covers every OPEN cell ----

  /** Distinct offsets land on distinct cells, whatever the anchor. */
  lemma {:induction false} FootprintSize(o: Orientation, r: int, c: int)
    requires Distinct(o)
    ensures |CellSet(Footprint(o, r, c))| == |o|
  {
    if |o| > 0 {
      var front := o[..|o| - 1];
      var last := (r + o[|o| - 1].0, c + o[|o| - 1].1);
      FootprintSize(front, r, c);
      assert Footprint(o, r, c) == Footprint(front, r, c) + [last];
      assert CellSet(Footprint(o, r, c)) == CellSet(Footprint(front, r, c)) + {last};
    }
  }

  /** The cells given to pieces 0 .. n-1. */
  ghost function MarkedBelow(before: Grid, after: Grid, n: nat): set<Cell>
    requires IsGrid(before) && IsGrid(after) && n <= 10
  {
    if n == 0 then {} else MarkedBelow(before, after, n - 1) + Marked(before, after, n - 1)
  }

  /** A placed piece takes as many cells as it has. */
  lemma CoversSize(before: Grid, after: Grid, j: nat)
    requires IsGrid(before) && IsGrid(after) && j < |PIECES|
    requires Covers(before, after, j)
    ensures |Marked(before, after, j)| == Size(j)
  {
    var o, r, c :| PlacedAt(before, after, j, o, r, c);
    OrientationsAreSound();
    FootprintSize(PIECES[j][o], r, c);
  }

  /** The cells given to pieces 0 .. n-1 were OPEN and now hold a digit
      below n. */
  lemma {:induction false} MarkedBelowCells(before: Grid, after: Grid, n: nat)
    requires IsGrid(before) && IsGrid(after) && n <= 10
    ensures forall x :: x in MarkedBelow(before, after, n) ==>
      InBounds(x) && At(before, x) == OPEN && 0 <= At(after, x) as int - '0' as int < n
  {
    if n > 0 {
      MarkedBelowCells(before, after, n - 1);
      MarkedCells(before, after, n - 1);
    }
  }

  /** Piece n takes none of the cells of pieces 0 .. n-1. */
  lemma BelowDisjoint(before: Grid, after: Grid, n: nat)
    requires IsGrid(before) && IsGrid(after) && n < 10
    ensures MarkedBelow(before, after, n) * Marked(before, after, n) == {}
  {
    MarkedBelowCells(before, after, n);
    MarkedCells(before, after, n);
    forall x | x in MarkedBelow(before, after, n) ensures x !in Marked(before, after, n) {
      assert At(after, x) as int - '0' as int < n;
    }
  }

  /** When every piece is placed, each was given as many cells as it has. */
  lemma PlacedSizes(before: Grid, after: Grid)
    requires IsGrid(before) && IsGrid(after)
    requires forall j :: 0 <= j < |PIECES| ==> Covers(before, after, j)
    ensures forall j :: 0 <= j < |PIECES| ==> |Marked(before, after, j)| == Size(j)
  {
    forall j | 0 <= j < |PIECES| ensures |Marked(before, after, j)| == Size(j) {
      CoversSize(before, after, j);
    }
  }

  /** Pieces do not overlap, so when each of pieces 0 .. n-1 was given as
      many cells as it has (CoversSize: a placed piece was), together they
      take as many cells as they have, all of them OPEN before the search. */
  lemma {:induction false} MarkedBelowSize(before: Grid, after: Grid, n: nat)
    requires IsGrid(before) && IsGrid(after) && n <= |PIECES|
    requires forall j :: 0 <= j < n ==> |Marked(before, after, j)| == Size(j)
    ensures |MarkedBelow(before, after, n)| == CellsOfFirst(n)
    ensures forall x :: x in MarkedBelow(before, after, n) ==>
      InBounds(x) && At(before, x) == OPEN && 0 <= At(after, x) as int - '0' as int < n
  {
    MarkedBelowCells(before, after, n);
    if n > 0 {
      MarkedBelowSize(before, after, n - 1);
      BelowDisjoint(before, after, n - 1);
      assert MarkedBelow(before, after, n) == MarkedBelow(before, after, n - 1) + Marked(before, after, n - 1);
    }
  }

  lemma SameSizeSubset(a: set<Cell>, b: set<Cell>)
    requires a <= b && |a| == |b|
    ensures a == b
  {
    assert |b - a| == |b| - |a|;
  }

  /** The cells given to pieces 0 .. n-1 are among the OPEN cells before. */
  lemma BelowWasOpen(before: Grid, after: Grid, n: nat)
    requires IsGrid(before) && IsGrid(after) && n <= 10
    ensures MarkedBelow(before, after, n) <= OpenCells(before)
  {
    MarkedBelowCells(before, after, n);
    forall x | x in MarkedBelow(before, after, n) ensures x in OpenCells(before) {
      assert x == (x.0, x.1);
    }
  }

  /** When every cell OPEN before the search went to one of the pieces, and
      the search wrote only over OPEN cells, no cell is OPEN afterwards. */
  lemma AllOpenPlaced(before: Grid, after: Grid)
    requires Extends(before, after, 0)
    requires OpenCells(before) <= MarkedBelow(before, after, |PIECES|)
    ensures OpenCells(after) == {}
  {
    MarkedBelowCells(before, after, |PIECES|);
    forall x | InBounds(x) ensures At(after, x) != OPEN {
      if At(before, x) == OPEN {
        assert x in OpenCells(before) by {
          assert x == (x.0, x.1);
        }
      }
    }
    NoOpenCells(after);
  }

  /** The counting argument: when the pieces were each given as many
      previously OPEN cells as they have, and there were exactly that many
      OPEN cells, none is left. */
  lemma FilledBySizes(before: Grid, after: Grid)
    requires Extends(before, after, 0)
    requires forall j :: 0 <= j < |PIECES| ==> |Marked(before, after, j)| == Size(j)
    requires |OpenCells(before)| == CellsOfFirst(|PIECES|)
    ensures OpenCells(after) == {}
  {
    MarkedBelowSize(before, after, |PIECES|);
    BelowWasOpen(before, after, |PIECES|);
    SameSizeSubset(MarkedBelow(before, after, |PIECES|), OpenCells(before));
    AllOpenPlaced(before, after);
  }

  /** Completeness: when the search started from a grid with exactly as many
      OPEN cells as the pieces have, and placed every piece, no cell is OPEN
      any more. */
  lemma SolvedGridIsFull(before: Grid, after: Grid)
    requires Extends(before, after, 0)
    requires forall j :: 0 <= j < |PIECES| ==> Covers(before, after, j)
    requires |OpenCells(before)| == CellsOfFirst(|PIECES|)
    ensures OpenCells(after) == {}
  {
    PlacedSizes(before, after);
    FilledBySizes(before, after);
  }
}
