/** The piece table: ten polyominoes, each given as the explicit list of its
    orientations, each orientation a list of (row, column) offsets from the
    anchor cell. The orientations are data; nothing rotates or reflects a
    shape at run time. */
module Geometry {

  /** A (row, column) displacement from a piece's anchor cell. */
  type Offset = (int, int)

  /** One orientation of a piece: its cells, relative to the anchor. */
  type Orientation = seq<Offset>

  /** The ten pieces in search order; piece j is written into the grid as
      the digit j. The comment above each piece shows its first orientation. */
  const PIECES: seq<seq<Orientation>> := [
    // 000
    //  0
    //  0
    [[(0,0), (0,1), (0,2), (1,1), (2,1)],
     [(0,2), (1,0), (1,1), (1,2), (2,2)],
     [(0,1), (1,1), (2,0), (2,1), (2,2)],
     [(0,0), (1,0), (1,1), (1,2), (2,0)]],
    // 111
    //   11
    [[(0,0), (0,1), (0,2), (1,2), (1,3)],
     [(0,1), (1,1), (2,0), (2,1), (3,0)],
     [(0,0), (0,1), (1,1), (1,2), (1,3)],
     [(0,1), (1,0), (1,1), (2,0), (3,0)],
     [(0,1), (0,2), (0,3), (1,0), (1,1)],
     [(0,0), (1,0), (1,1), (2,1), (3,1)],
     [(0,2), (0,3), (1,0), (1,1), (1,2)],
     [(0,0), (1,0), (2,0), (2,1), (3,1)]],
    // 222
    // 2
    // 2
    [[(0,0), (0,1), (0,2), (1,0), (2,0)],
     [(0,0), (0,1), (0,2), (1,2), (2,2)],
     [(0,2), (1,2), (2,0), (2,1), (2,2)],
     [(0,0), (1,0), (2,0), (2,1), (2,2)]],
    // 33
    //  3
    //  33
    [[(0,0), (0,1), (1,1), (2,1), (2,2)],
     [(0,2), (1,0), (1,1), (1,2), (2,0)],
     [(0,1), (0,2), (1,1), (2,0), (2,1)],
     [(0,0), (1,0), (1,1), (1,2), (2,2)]],
    // 4444
    // 4
    [[(0,0), (0,1), (0,2), (0,3), (1,0)],
     [(0,0), (0,1), (1,1), (2,1), (3,1)],
     [(0,3), (1,0), (1,1), (1,2), (1,3)],
     [(0,0), (1,0), (2,0), (3,0), (3,1)],
     [(0,0), (0,1), (0,2), (0,3), (1,3)],
     [(0,1), (1,1), (2,1), (3,0), (3,1)],
     [(0,0), (1,0), (1,1), (1,2), (1,3)],
     [(0,0), (0,1), (1,0), (2,0), (3,0)]],
    // 5555
    [[(0,0), (0,1), (0,2), (0,3)],
     [(0,0), (1,0), (2,0), (3,0)]],
    // 666
    // 6 6
    [[(0,0), (0,1), (0,2), (1,0), (1,2)],
     [(0,0), (0,1), (1,1), (2,0), (2,1)],
     [(0,0), (0,2), (1,0), (1,1), (1,2)],
     [(0,0), (0,1), (1,0), (2,0), (2,1)]],
    // 777
    // 77
    [[(0,0), (0,1), (0,2), (1,0), (1,1)],
     [(0,0), (0,1), (1,0), (1,1), (2,1)],
     [(0,1), (0,2), (1,0), (1,1), (1,2)],
     [(0,0), (1,0), (1,1), (2,0), (2,1)],
     [(0,0), (0,1), (0,2), (1,1), (1,2)],
     [(0,1), (1,0), (1,1), (2,0), (2,1)],
     [(0,0), (0,1), (1,0), (1,1), (1,2)],
     [(0,0), (0,1), (1,0), (1,1), (2,0)]],
    // 888
    //   8
    [[(0,0), (0,1), (0,2), (1,2)],
     [(0,1), (1,1), (2,0), (2,1)],
     [(0,0), (1,0), (1,1), (1,2)],
     [(0,0), (0,1), (1,0), (2,0)],
     [(0,0), (0,1), (0,2), (1,0)],
     [(0,0), (0,1), (1,1), (2,1)],
     [(0,2), (1,0), (1,1), (1,2)],
     [(0,0), (1,0), (2,0), (2,1)]],
    // 99
    //  99
    [[(0,0), (0,1), (1,1), (1,2)],
     [(0,1), (1,0), (1,1), (2,0)],
     [(0,1), (0,2), (1,0), (1,1)],
     [(0,0), (1,0), (1,1), (2,1)]]
  ]

  /** The number of cells of piece `j`, read off its first orientation. */
  function Size(j: nat): nat
    requires j < |PIECES|
  {
    |PIECES[j][0]|
  }

  /** No offset occurs twice in `o`. */
  ghost predicate Distinct(o: Orientation) {
    forall a, b :: 0 <= a < b < |o| ==> o[a] != o[b]
  }

  /** Every offset of `o` points down and to the right of the anchor. */
  ghost predicate NonNegative(o: Orientation) {
    forall i :: 0 <= i < |o| ==> o[i].0 >= 0 && o[i].1 >= 0
  }

  /** `o` is pushed against the anchor's row and column: some offset has row
      0 and some offset has column 0 (but (0,0) itself need not occur). */
  ghost predicate Normalised(o: Orientation) {
    (exists i :: 0 <= i < |o| && o[i].0 == 0) && (exists i :: 0 <= i < |o| && o[i].1 == 0)
  }

  /** A well-formed orientation of an `n`-cell piece. */
  ghost predicate SoundOrientation(o: Orientation, n: nat) {
    |o| == n && Distinct(o) && NonNegative(o) && Normalised(o)
  }

  // Tests of the table that Dafny can evaluate on the literal, one index at a time.

  predicate AbsentFrom(o: Orientation, x: Offset, i: nat)
    decreases |o| - i
  {
    i >= |o| || (o[i] != x && AbsentFrom(o, x, i + 1))
  }

  predicate HasZeroRow(o: Orientation, i: nat)
    decreases |o| - i
  {
    i < |o| && (o[i].0 == 0 || HasZeroRow(o, i + 1))
  }

  predicate HasZeroColumn(o: Orientation, i: nat)
    decreases |o| - i
  {
    i < |o| && (o[i].1 == 0 || HasZeroColumn(o, i + 1))
  }

  predicate OffsetsFrom(o: Orientation, i: nat)
    decreases |o| - i
  {
    i >= |o| || (o[i].0 >= 0 && o[i].1 >= 0 && AbsentFrom(o, o[i], i + 1) && OffsetsFrom(o, i + 1))
  }

  predicate OrientationsFrom(os: seq<Orientation>, n: nat, i: nat)
    decreases |os| - i
  {
    i >= |os| ||
    (|os[i]| == n && OffsetsFrom(os[i], 0) && HasZeroRow(os[i], 0) && HasZeroColumn(os[i], 0) &&
     OrientationsFrom(os, n, i + 1))
  }

  lemma {:induction false} AbsentFromMeans(o: Orientation, x: Offset, i: nat)
    requires AbsentFrom(o, x, i)
    ensures forall k :: i <= k < |o| ==> o[k] != x
    decreases |o| - i
  {
    if i < |o| {
      AbsentFromMeans(o, x, i + 1);
    }
  }

  lemma {:induction false} HasZeroRowMeans(o: Orientation, i: nat)
    requires HasZeroRow(o, i)
    ensures exists k :: i <= k < |o| && o[k].0 == 0
    decreases |o| - i
  {
    if o[i].0 != 0 {
      HasZeroRowMeans(o, i + 1);
    }
  }

  lemma {:induction false} HasZeroColumnMeans(o: Orientation, i: nat)
    requires HasZeroColumn(o, i)
    ensures exists k :: i <= k < |o| && o[k].1 == 0
    decreases |o| - i
  {
    if o[i].1 != 0 {
      HasZeroColumnMeans(o, i + 1);
    }
  }

  lemma {:induction false} OffsetsFromMeans(o: Orientation, i: nat)
    requires OffsetsFrom(o, i)
    ensures forall k :: i <= k < |o| ==> o[k].0 >= 0 && o[k].1 >= 0
    ensures forall a, b :: i <= a < b < |o| ==> o[a] != o[b]
    decreases |o| - i
  {
    if i < |o| {
      AbsentFromMeans(o, o[i], i + 1);
      OffsetsFromMeans(o, i + 1);
    }
  }

  /** What the evaluable test of the table establishes about a list of
      orientations. */
  lemma {:induction false} OrientationsFromMeans(os: seq<Orientation>, n: nat, i: nat)
    requires OrientationsFrom(os, n, i)
    ensures forall k :: i <= k < |os| ==> SoundOrientation(os[k], n)
    decreases |os| - i
  {
    if i < |os| {
      OffsetsFromMeans(os[i], 0);
      HasZeroRowMeans(os[i], 0);
      HasZeroColumnMeans(os[i], 0);
      OrientationsFromMeans(os, n, i + 1);
    }
  }

  // The evaluable test of the table run on each piece of the literal, two
  // orientations at a time from the last pair back to the first.

  lemma Piece0Checked() ensures OrientationsFrom(PIECES[0], Size(0), 0) {
    assert OrientationsFrom(PIECES[0], Size(0), 2);
  }
  lemma Piece1Checked() ensures OrientationsFrom(PIECES[1], Size(1), 0) {
    assert OrientationsFrom(PIECES[1], Size(1), 6);
    assert OrientationsFrom(PIECES[1], Size(1), 4);
    assert OrientationsFrom(PIECES[1], Size(1), 2);
  }
  lemma Piece2Checked() ensures OrientationsFrom(PIECES[2], Size(2), 0) {
    assert OrientationsFrom(PIECES[2], Size(2), 2);
  }
  lemma Piece3Checked() ensures OrientationsFrom(PIECES[3], Size(3), 0) {
    assert OrientationsFrom(PIECES[3], Size(3), 2);
  }
  lemma Piece4Checked() ensures OrientationsFrom(PIECES[4], Size(4), 0) {
    assert OrientationsFrom(PIECES[4], Size(4), 6);
    assert OrientationsFrom(PIECES[4], Size(4), 4);
    assert OrientationsFrom(PIECES[4], Size(4), 2);
  }
  lemma Piece5Checked() ensures OrientationsFrom(PIECES[5], Size(5), 0) { }
  lemma Piece6Checked() ensures OrientationsFrom(PIECES[6], Size(6), 0) {
    assert OrientationsFrom(PIECES[6], Size(6), 2);
  }
  lemma Piece7Checked() ensures OrientationsFrom(PIECES[7], Size(7), 0) {
    assert OrientationsFrom(PIECES[7], Size(7), 6);
    assert OrientationsFrom(PIECES[7], Size(7), 4);
    assert OrientationsFrom(PIECES[7], Size(7), 2);
  }
  lemma Piece8Checked() ensures OrientationsFrom(PIECES[8], Size(8), 0) {
    assert OrientationsFrom(PIECES[8], Size(8), 6);
    assert OrientationsFrom(PIECES[8], Size(8), 4);
    assert OrientationsFrom(PIECES[8], Size(8), 2);
  }
  lemma Piece9Checked() ensures OrientationsFrom(PIECES[9], Size(9), 0) {
    assert OrientationsFrom(PIECES[9], Size(9), 2);
  }

  /** The evaluable test of the table holds of every piece. */
  lemma PieceChecked(j: nat)
    requires j < |PIECES|
    ensures OrientationsFrom(PIECES[j], Size(j), 0)
  {
    if j == 0 { Piece0Checked(); }
    else if j == 1 { Piece1Checked(); }
    else if j == 2 { Piece2Checked(); }
    else if j == 3 { Piece3Checked(); }
    else if j == 4 { Piece4Checked(); }
    else if j == 5 { Piece5Checked(); }
    else if j == 6 { Piece6Checked(); }
    else if j == 7 { Piece7Checked(); }
    else if j == 8 { Piece8Checked(); }
    else { Piece9Checked(); }
  }

  /** Every orientation of piece j has Size(j) distinct, non-negative offsets
      and touches the anchor's row and column. */
  lemma OrientationsAreSound()
    ensures |PIECES| == 10
    ensures forall j, o :: 0 <= j < |PIECES| && 0 <= o < |PIECES[j]| ==> SoundOrientation(PIECES[j][o], Size(j))
  {
    forall j | 0 <= j < |PIECES|
      ensures forall o :: 0 <= o < |PIECES[j]| ==> SoundOrientation(PIECES[j][o], Size(j))
    {
      PieceChecked(j);
      OrientationsFromMeans(PIECES[j], Size(j), 0);
    }
  }

  /** The anchor offset (0,0) is not part of every orientation: the second
      orientation of piece 0 starts at (0,2). */
  lemma AnchorCellNotAlwaysCovered()
    ensures exists j, o :: 0 <= j < |PIECES| && 0 <= o < |PIECES[j]| && (0, 0) !in PIECES[j][o]
  {
    assert (0, 0) !in PIECES[0][1];
  }

  /** The combined size of pieces 0 .. n-1. */
  function CellsOfFirst(n: nat): nat
    requires n <= |PIECES|
  {
    if n == 0 then 0 else CellsOfFirst(n - 1) + Size(n - 1)
  }

  /** The ten pieces cover 47 cells together: seven pieces of five cells and
      three of four. */
  lemma TotalCells()
    ensures forall j :: 0 <= j < |PIECES| ==> Size(j) == if j == 5 || j == 8 || j == 9 then 4 else 5
    ensures CellsOfFirst(|PIECES|) == 47
  {
    assert Size(0) == Size(1) == Size(2) == Size(3) == Size(4) == Size(6) == Size(7) == 5;
    assert Size(5) == Size(8) == Size(9) == 4;
  }
}
