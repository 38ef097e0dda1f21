/**
 The concrete behaviour the engine's unit tests pin down, stated about the
 model: neighbour counts in the middle and at a corner, the four life rules on
 3x3 grids, the period-2 blinker, and the stability check.
 */
module BacteriaLifeExamples {
  import opened BacteriaLife

  /** The centre of a 3x3 grid whose top row is alive has 3 neighbours; it does not count itself. */
  lemma CentreCountsTopRow()
    ensures CheckNeighbours([[1, 1, 1], [0, 1, 0], [0, 0, 0]], 1, 1) == 3
  {
  }

  /** The top-left corner only counts its three in-bounds neighbours, without wrapping. */
  lemma CornerCountsInBoundsOnly()
    ensures CheckNeighbours([[0, 1], [1, 1]], 0, 0) == 3
  {
  }

  /** A live cell with no live neighbour dies of isolation. */
  lemma IsolatedCellDies()
    ensures NextGen([[0, 0, 0], [0, 1, 0], [0, 0, 0]])[1][1] == 0
  {
    var g := [[0, 0, 0], [0, 1, 0], [0, 0, 0]];
    assert CheckNeighbours(g, 1, 1) == 0;
    NextGenCell(g, 1, 1);
  }

  /** A live cell with four live neighbours dies of overcrowding. */
  lemma CrowdedCellDies()
    ensures NextGen([[0, 1, 0], [1, 1, 1], [0, 1, 0]])[1][1] == 0
  {
    var g := [[0, 1, 0], [1, 1, 1], [0, 1, 0]];
    assert CheckNeighbours(g, 1, 1) == 4;
    NextGenCell(g, 1, 1);
  }

  /** A dead cell with exactly three live neighbours is born. */
  lemma DeadCellWithThreeIsBorn()
    ensures NextGen([[1, 1, 0], [1, 0, 0], [0, 0, 0]])[1][1] == 1
  {
    var g := [[1, 1, 0], [1, 0, 0], [0, 0, 0]];
    assert CheckNeighbours(g, 1, 1) == 3;
    NextGenCell(g, 1, 1);
  }

  /** A live cell with exactly two live neighbours survives. */
  lemma LiveCellWithTwoSurvives()
    ensures NextGen([[1, 0, 0], [0, 1, 0], [0, 0, 1]])[1][1] == 1
  {
    var g := [[1, 0, 0], [0, 1, 0], [0, 0, 1]];
    assert CheckNeighbours(g, 1, 1) == 2;
    NextGenCell(g, 1, 1);
  }

  /** The test's horizontal blinker: three live cells across the middle row of a 5x5 grid. */
  function Horizontal(): Grid {
    [[0, 0, 0, 0, 0],
     [0, 0, 0, 0, 0],
     [0, 1, 1, 1, 0],
     [0, 0, 0, 0, 0],
     [0, 0, 0, 0, 0]]
  }

  /** The same blinker turned vertical: three live cells down the middle column. */
  function Vertical(): Grid {
    [[0, 0, 0, 0, 0],
     [0, 0, 1, 0, 0],
     [0, 0, 1, 0, 0],
     [0, 0, 1, 0, 0],
     [0, 0, 0, 0, 0]]
  }

  /** The horizontal line turns into the vertical line through the middle column. */
  lemma HorizontalTurnsVertical(h: Grid)
    requires |h| == 5
    requires h[0] == [0, 0, 0, 0, 0]
    requires h[1] == [0, 0, 0, 0, 0]
    requires h[2] == [0, 1, 1, 1, 0]
    requires h[3] == [0, 0, 0, 0, 0]
    requires h[4] == [0, 0, 0, 0, 0]
    ensures NextGen(h) == Vertical()
  {
    HorizontalStep(h);
    RowOfFive(NextGen(h)[0], 0, 0, 0, 0, 0);
    RowOfFive(NextGen(h)[1], 0, 0, 1, 0, 0);
    RowOfFive(NextGen(h)[2], 0, 0, 1, 0, 0);
    RowOfFive(NextGen(h)[3], 0, 0, 1, 0, 0);
    RowOfFive(NextGen(h)[4], 0, 0, 0, 0, 0);
  }

  /** The vertical line turns back into exactly the horizontal line. */
  lemma VerticalTurnsHorizontal(v: Grid)
    requires |v| == 5
    requires v[0] == [0, 0, 0, 0, 0]
    requires v[1] == [0, 0, 1, 0, 0]
    requires v[2] == [0, 0, 1, 0, 0]
    requires v[3] == [0, 0, 1, 0, 0]
    requires v[4] == [0, 0, 0, 0, 0]
    ensures NextGen(v) == Horizontal()
  {
    VerticalStep(v);
    RowOfFive(NextGen(v)[0], 0, 0, 0, 0, 0);
    RowOfFive(NextGen(v)[1], 0, 0, 0, 0, 0);
    RowOfFive(NextGen(v)[2], 0, 1, 1, 1, 0);
    RowOfFive(NextGen(v)[3], 0, 0, 0, 0, 0);
    RowOfFive(NextGen(v)[4], 0, 0, 0, 0, 0);
  }

  /** A row of five cells is the display of its five entries. */
  lemma RowOfFive(row: seq<int>, a: int, b: int, c: int, d: int, e: int)
    requires |row| == 5
    requires row[0] == a && row[1] == b && row[2] == c && row[3] == d && row[4] == e
    ensures row == [a, b, c, d, e]
  {
  }

  /** Neighbour counts of the horizontal line, laid out as the grid. */
  lemma HorizontalCounts(h: Grid)
    requires |h| == 5
    requires h[0] == [0, 0, 0, 0, 0]
    requires h[1] == [0, 0, 0, 0, 0]
    requires h[2] == [0, 1, 1, 1, 0]
    requires h[3] == [0, 0, 0, 0, 0]
    requires h[4] == [0, 0, 0, 0, 0]
    ensures CheckNeighbours(h, 0, 0) == 0 && CheckNeighbours(h, 0, 1) == 0 && CheckNeighbours(h, 0, 2) == 0 && CheckNeighbours(h, 0, 3) == 0 && CheckNeighbours(h, 0, 4) == 0
    ensures CheckNeighbours(h, 1, 0) == 1 && CheckNeighbours(h, 1, 1) == 2 && CheckNeighbours(h, 1, 2) == 3 && CheckNeighbours(h, 1, 3) == 2 && CheckNeighbours(h, 1, 4) == 1
    ensures CheckNeighbours(h, 2, 0) == 1 && CheckNeighbours(h, 2, 1) == 1 && CheckNeighbours(h, 2, 2) == 2 && CheckNeighbours(h, 2, 3) == 1 && CheckNeighbours(h, 2, 4) == 1
    ensures CheckNeighbours(h, 3, 0) == 1 && CheckNeighbours(h, 3, 1) == 2 && CheckNeighbours(h, 3, 2) == 3 && CheckNeighbours(h, 3, 3) == 2 && CheckNeighbours(h, 3, 4) == 1
    ensures CheckNeighbours(h, 4, 0) == 0 && CheckNeighbours(h, 4, 1) == 0 && CheckNeighbours(h, 4, 2) == 0 && CheckNeighbours(h, 4, 3) == 0 && CheckNeighbours(h, 4, 4) == 0
  {
  }

  /** Neighbour counts of the vertical line, laid out as the grid. */
  lemma VerticalCounts(v: Grid)
    requires |v| == 5
    requires v[0] == [0, 0, 0, 0, 0]
    requires v[1] == [0, 0, 1, 0, 0]
    requires v[2] == [0, 0, 1, 0, 0]
    requires v[3] == [0, 0, 1, 0, 0]
    requires v[4] == [0, 0, 0, 0, 0]
    ensures CheckNeighbours(v, 0, 0) == 0 && CheckNeighbours(v, 0, 1) == 1 && CheckNeighbours(v, 0, 2) == 1 && CheckNeighbours(v, 0, 3) == 1 && CheckNeighbours(v, 0, 4) == 0
    ensures CheckNeighbours(v, 1, 0) == 0 && CheckNeighbours(v, 1, 1) == 2 && CheckNeighbours(v, 1, 2) == 1 && CheckNeighbours(v, 1, 3) == 2 && CheckNeighbours(v, 1, 4) == 0
    ensures CheckNeighbours(v, 2, 0) == 0 && CheckNeighbours(v, 2, 1) == 3 && CheckNeighbours(v, 2, 2) == 2 && CheckNeighbours(v, 2, 3) == 3 && CheckNeighbours(v, 2, 4) == 0
    ensures CheckNeighbours(v, 3, 0) == 0 && CheckNeighbours(v, 3, 1) == 2 && CheckNeighbours(v, 3, 2) == 1 && CheckNeighbours(v, 3, 3) == 2 && CheckNeighbours(v, 3, 4) == 0
    ensures CheckNeighbours(v, 4, 0) == 0 && CheckNeighbours(v, 4, 1) == 1 && CheckNeighbours(v, 4, 2) == 1 && CheckNeighbours(v, 4, 3) == 1 && CheckNeighbours(v, 4, 4) == 0
  {
  }

  /** One step of the horizontal line, cell by cell, from its neighbour counts. */
  lemma HorizontalStep(h: Grid)
    requires |h| == 5
    requires h[0] == [0, 0, 0, 0, 0]
    requires h[1] == [0, 0, 0, 0, 0]
    requires h[2] == [0, 1, 1, 1, 0]
    requires h[3] == [0, 0, 0, 0, 0]
    requires h[4] == [0, 0, 0, 0, 0]
    ensures NextGen(h)[0][0] == 0 && NextGen(h)[0][1] == 0 && NextGen(h)[0][2] == 0 && NextGen(h)[0][3] == 0 && NextGen(h)[0][4] == 0
    ensures NextGen(h)[1][0] == 0 && NextGen(h)[1][1] == 0 && NextGen(h)[1][2] == 1 && NextGen(h)[1][3] == 0 && NextGen(h)[1][4] == 0
    ensures NextGen(h)[2][0] == 0 && NextGen(h)[2][1] == 0 && NextGen(h)[2][2] == 1 && NextGen(h)[2][3] == 0 && NextGen(h)[2][4] == 0
    ensures NextGen(h)[3][0] == 0 && NextGen(h)[3][1] == 0 && NextGen(h)[3][2] == 1 && NextGen(h)[3][3] == 0 && NextGen(h)[3][4] == 0
    ensures NextGen(h)[4][0] == 0 && NextGen(h)[4][1] == 0 && NextGen(h)[4][2] == 0 && NextGen(h)[4][3] == 0 && NextGen(h)[4][4] == 0
  {
    HorizontalCounts(h);
    NextGenCell(h, 0, 0); NextGenCell(h, 0, 1); NextGenCell(h, 0, 2); NextGenCell(h, 0, 3); NextGenCell(h, 0, 4);
    NextGenCell(h, 1, 0); NextGenCell(h, 1, 1); NextGenCell(h, 1, 2); NextGenCell(h, 1, 3); NextGenCell(h, 1, 4);
    NextGenCell(h, 2, 0); NextGenCell(h, 2, 1); NextGenCell(h, 2, 2); NextGenCell(h, 2, 3); NextGenCell(h, 2, 4);
    NextGenCell(h, 3, 0); NextGenCell(h, 3, 1); NextGenCell(h, 3, 2); NextGenCell(h, 3, 3); NextGenCell(h, 3, 4);
    NextGenCell(h, 4, 0); NextGenCell(h, 4, 1); NextGenCell(h, 4, 2); NextGenCell(h, 4, 3); NextGenCell(h, 4, 4);
  }

  /** One step of the vertical line, cell by cell, from its neighbour counts. */
  lemma VerticalStep(v: Grid)
    requires |v| == 5
    requires v[0] == [0, 0, 0, 0, 0]
    requires v[1] == [0, 0, 1, 0, 0]
    requires v[2] == [0, 0, 1, 0, 0]
    requires v[3] == [0, 0, 1, 0, 0]
    requires v[4] == [0, 0, 0, 0, 0]
    ensures NextGen(v)[0][0] == 0 && NextGen(v)[0][1] == 0 && NextGen(v)[0][2] == 0 && NextGen(v)[0][3] == 0 && NextGen(v)[0][4] == 0
    ensures NextGen(v)[1][0] == 0 && NextGen(v)[1][1] == 0 && NextGen(v)[1][2] == 0 && NextGen(v)[1][3] == 0 && NextGen(v)[1][4] == 0
    ensures NextGen(v)[2][0] == 0 && NextGen(v)[2][1] == 1 && NextGen(v)[2][2] == 1 && NextGen(v)[2][3] == 1 && NextGen(v)[2][4] == 0
    ensures NextGen(v)[3][0] == 0 && NextGen(v)[3][1] == 0 && NextGen(v)[3][2] == 0 && NextGen(v)[3][3] == 0 && NextGen(v)[3][4] == 0
    ensures NextGen(v)[4][0] == 0 && NextGen(v)[4][1] == 0 && NextGen(v)[4][2] == 0 && NextGen(v)[4][3] == 0 && NextGen(v)[4][4] == 0
  {
    VerticalCounts(v);
    NextGenCell(v, 0, 0); NextGenCell(v, 0, 1); NextGenCell(v, 0, 2); NextGenCell(v, 0, 3); NextGenCell(v, 0, 4);
    NextGenCell(v, 1, 0); NextGenCell(v, 1, 1); NextGenCell(v, 1, 2); NextGenCell(v, 1, 3); NextGenCell(v, 1, 4);
    NextGenCell(v, 2, 0); NextGenCell(v, 2, 1); NextGenCell(v, 2, 2); NextGenCell(v, 2, 3); NextGenCell(v, 2, 4);
    NextGenCell(v, 3, 0); NextGenCell(v, 3, 1); NextGenCell(v, 3, 2); NextGenCell(v, 3, 3); NextGenCell(v, 3, 4);
    NextGenCell(v, 4, 0); NextGenCell(v, 4, 1); NextGenCell(v, 4, 2); NextGenCell(v, 4, 3); NextGenCell(v, 4, 4);
  }

  /**
   The blinker has period 2: two steps give back the original exactly, and no
   two consecutive generations are equal, so the stability check never halts it.
   */
  lemma BlinkerOscillates()
    ensures NextGen(NextGen(Horizontal())) == Horizontal()
    ensures !CheckStableGen(Horizontal(), NextGen(Horizontal()))
    ensures !CheckStableGen(NextGen(Horizontal()), NextGen(NextGen(Horizontal())))
  {
    HorizontalTurnsVertical(Horizontal());
    VerticalTurnsHorizontal(Vertical());
    assert Horizontal()[2][1] != Vertical()[2][1];
  }

  /** Identical grids are stable; grids differing in a cell are not. */
  lemma StableGenExamples()
    ensures CheckStableGen([[0, 1], [1, 0]], [[0, 1], [1, 0]])
    ensures !CheckStableGen([[0, 1], [1, 0]], [[0, 0], [0, 0]])
  {
  }
}
