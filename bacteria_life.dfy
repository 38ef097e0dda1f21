/**
 The bacteria-life engine: Conway's Game of Life (birth on 3 neighbours,
 survival on 2 or 3) on a bounded grid of 0/1 cells, with no wrap-around.

 A grid is a Java `int[][]`. The static queries (`checkNeighbours`,
 `checkStableGen`) are pure functions over a value snapshot of the grid; the
 engine object, which owns the grid size and the round counter, is a class
 whose methods allocate and fill fresh arrays.
 */
module BacteriaLife {

  /** A value snapshot of an `int[][]`: row `i`, column `j` is `g[i][j]`. */
  type Grid = seq<seq<int>>

  /** `g` has exactly `n` rows of exactly `n` cells each. */
  predicate IsSquare(g: Grid, n: nat) {
    |g| == n && forall i :: 0 <= i < |g| ==> |g[i]| == n
  }

  /** Every cell of `g` is 0 (dead) or 1 (alive). */
  predicate IsBinary(g: Grid) {
    forall i, j :: 0 <= i < |g| && 0 <= j < |g[i]| ==> g[i][j] == 0 || g[i][j] == 1
  }

  /** Two grids have the same number of rows and each row the same length. */
  predicate SameShape(g: Grid, h: Grid) {
    |g| == |h| && forall i :: 0 <= i < |g| ==> |g[i]| == |h[i]|
  }

  /** Position `p` lies inside `g` (no wrap-around: anything else is outside). */
  predicate InGrid(g: Grid, p: (int, int)) {
    0 <= p.0 < |g| && 0 <= p.1 < |g[p.0]|
  }

  /** Position `p` lies inside `g` and holds a live cell. */
  predicate Live(g: Grid, p: (int, int)) {
    InGrid(g, p) && g[p.0][p.1] == 1
  }

  /** The eight positions around (r, c), in row-major order; (r, c) itself is not among them. */
  function Adjacent(r: int, c: int): (ps: seq<(int, int)>)
    ensures |ps| == 8 && (r, c) !in ps
    ensures forall k :: 0 <= k < |ps| ==> r - 1 <= ps[k].0 <= r + 1 && c - 1 <= ps[k].1 <= c + 1
  {
    [(r - 1, c - 1), (r - 1, c), (r - 1, c + 1),
     (r, c - 1),                 (r, c + 1),
     (r + 1, c - 1), (r + 1, c), (r + 1, c + 1)]
  }

  /** How many of the positions `ps` hold a live cell of `g`. */
  function CountLive(g: Grid, ps: seq<(int, int)>): (n: nat)
    ensures n <= |ps|
  {
    if ps == [] then 0
    else (if Live(g, ps[0]) then 1 else 0) + CountLive(g, ps[1..])
  }

  /** 1 when (i, j) is inside `g` and alive, 0 otherwise. */
  function LiveBit(g: Grid, i: int, j: int): (b: nat)
    ensures b <= 1 && (b == 1 <==> Live(g, (i, j)))
  {
    if Live(g, (i, j)) then 1 else 0
  }

  /**
   `checkNeighbours(grid, r, c)`: the number of live cells among the up-to-eight
   in-bounds cells around (r, c). Positions outside the grid are skipped, not
   wrapped, and the cell itself is never counted.
   */
  function CheckNeighbours(g: Grid, r: int, c: int): (n: nat)
    ensures n <= 8
  {
    LiveBit(g, r - 1, c - 1) + LiveBit(g, r - 1, c) + LiveBit(g, r - 1, c + 1) +
    LiveBit(g, r, c - 1) +                            LiveBit(g, r, c + 1) +
    LiveBit(g, r + 1, c - 1) + LiveBit(g, r + 1, c) + LiveBit(g, r + 1, c + 1)
  }

  /** The set of live neighbour positions of (r, c), defined directly from the 3x3 box around it. */
  ghost function NeighbourCells(g: Grid, r: int, c: int): set<(int, int)> {
    set i: int, j: int | r - 1 <= i <= r + 1 && c - 1 <= j <= c + 1 && (i, j) != (r, c) && Live(g, (i, j)) :: (i, j)
  }

  /**
   The life rule for one cell holding `cell` with `n` live neighbours:
   a live cell dies with fewer than 2 (isolation) or more than 3 (overcrowding)
   neighbours and survives otherwise; a dead cell is born with exactly 3.
   */
  function Rule(cell: int, n: int): (next: int)
    ensures next == 0 || next == 1
    ensures next == 1 <==> n == 3 || (cell == 1 && n == 2)
  {
    if cell == 1 then
      if n < 2 || n > 3 then 0 else 1
    else
      if n == 3 then 1 else 0
  }

  /**
   `generateNewGen`: every cell of the next generation is the rule applied to
   that cell and its neighbour count, both taken from the OLD generation `g`.
   */
  function NextGen(g: Grid): (h: Grid)
    ensures SameShape(g, h)
  {
    seq(|g|, i requires 0 <= i < |g| =>
      seq(|g[i]|, j requires 0 <= j < |g[i]| => Rule(g[i][j], CheckNeighbours(g, i, j))))
  }

  /** One cell of NextGen, unfolded. */
  lemma NextGenCell(g: Grid, i: int, j: int)
    requires InGrid(g, (i, j))
    ensures NextGen(g)[i][j] == Rule(g[i][j], CheckNeighbours(g, i, j))
  {
  }

  /**
   `checkStableGen(a, b)`: cell-for-cell equality of two generations (same row
   count, same row lengths, same cells). It detects a period-1 fixed point only.
   */
  function CheckStableGen(a: Grid, b: Grid): (stable: bool)
    ensures stable <==> a == b
  {
    var stable := SameShape(a, b) &&
      forall i, j :: 0 <= i < |a| && 0 <= j < |a[i]| ==> a[i][j] == b[i][j];
    if stable then CellwiseEqual(a, b); stable else stable
  }

  /** Grids of the same shape that agree on every cell are the same grid. */
  lemma CellwiseEqual(a: Grid, b: Grid)
    requires SameShape(a, b)
    requires forall i, j :: 0 <= i < |a| && 0 <= j < |a[i]| ==> a[i][j] == b[i][j]
    ensures a == b
  {
    forall i | 0 <= i < |a| ensures a[i] == b[i] {
      assert |a[i]| == |b[i]|;
    }
  }

  /** The 0/1 value Java stores for a random boolean draw. */
  function Bit(b: bool): (cell: int)
    ensures cell == 0 || cell == 1
    ensures cell == 1 <==> b
  {
    if b then 1 else 0
  }

  // ---------------------------------------------------------------------------
  // Properties of the neighbour count
  // ---------------------------------------------------------------------------

  /** Over distinct positions, the count is the number of distinct live positions. */
  lemma {:induction false} CountLiveIsCardinality(g: Grid, ps: seq<(int, int)>)
    requires forall a, b :: 0 <= a < b < |ps| ==> ps[a] != ps[b]
    ensures CountLive(g, ps) == |set p | p in ps && Live(g, p)|
  {
    if ps == [] {
      assert (set p | p in ps && Live(g, p)) == {};
    } else {
      var rest := set p | p in ps[1..] && Live(g, p);
      CountLiveIsCardinality(g, ps[1..]);
      assert ps[0] !in ps[1..] by {
        forall k | 0 <= k < |ps[1..]| ensures ps[1..][k] != ps[0] {
          assert ps[1..][k] == ps[k + 1];
        }
      }
      if Live(g, ps[0]) {
        assert (set p | p in ps && Live(g, p)) == rest + {ps[0]};
      } else {
        assert (set p | p in ps && Live(g, p)) == rest;
      }
    }
  }

  /**
   `checkNeighbours` counts exactly the live cells of the 3x3 box around
   (r, c) that lie inside the grid, other than (r, c) itself.
   */
  lemma NeighboursAreLiveBoxCells(g: Grid, r: int, c: int)
    ensures CheckNeighbours(g, r, c) == |NeighbourCells(g, r, c)|
  {
    NeighboursOverAdjacent(g, r, c);
    CountLiveIsCardinality(g, Adjacent(r, c));
    BoxIsAdjacent(g, r, c);
  }

  /** The live box cells are exactly the live positions listed by Adjacent. */
  lemma BoxIsAdjacent(g: Grid, r: int, c: int)
    ensures NeighbourCells(g, r, c) == set p | p in Adjacent(r, c) && Live(g, p)
  {
    var ps := Adjacent(r, c);
    var listed := set p | p in ps && Live(g, p);
    var box := NeighbourCells(g, r, c);
    forall p | p in box ensures p in listed {
      BoxCellIsAdjacent(r, c, p.0, p.1);
    }
    forall p | p in listed ensures p in box {
      var k :| 0 <= k < |ps| && ps[k] == p;
    }
  }

  /** The neighbour count is the count of live positions listed by Adjacent. */
  lemma NeighboursOverAdjacent(g: Grid, r: int, c: int)
    ensures CheckNeighbours(g, r, c) == CountLive(g, Adjacent(r, c))
  {
    var ps := Adjacent(r, c);
    assert ps[7..] == [ps[7]];
    assert CountLive(g, ps[7..]) == LiveBit(g, r + 1, c + 1);
    assert CountLive(g, ps[6..]) == LiveBit(g, r + 1, c) + CountLive(g, ps[7..]);
    assert CountLive(g, ps[5..]) == LiveBit(g, r + 1, c - 1) + CountLive(g, ps[6..]);
    assert CountLive(g, ps[4..]) == LiveBit(g, r, c + 1) + CountLive(g, ps[5..]);
    assert CountLive(g, ps[3..]) == LiveBit(g, r, c - 1) + CountLive(g, ps[4..]);
    assert CountLive(g, ps[2..]) == LiveBit(g, r - 1, c + 1) + CountLive(g, ps[3..]);
    assert CountLive(g, ps[1..]) == LiveBit(g, r - 1, c) + CountLive(g, ps[2..]);
  }

  /** Every position of the 3x3 box around (r, c) other than (r, c) is listed by Adjacent. */
  lemma BoxCellIsAdjacent(r: int, c: int, i: int, j: int)
    requires r - 1 <= i <= r + 1 && c - 1 <= j <= c + 1 && (i, j) != (r, c)
    ensures (i, j) in Adjacent(r, c)
  {
    var ps := Adjacent(r, c);
    if i == r - 1 {
      if j == c - 1 { assert ps[0] == (i, j); }
      else if j == c { assert ps[1] == (i, j); }
      else { assert ps[2] == (i, j); }
    } else if i == r {
      if j == c - 1 { assert ps[3] == (i, j); }
      else { assert ps[4] == (i, j); }
    } else {
      if j == c - 1 { assert ps[5] == (i, j); }
      else if j == c { assert ps[6] == (i, j); }
      else { assert ps[7] == (i, j); }
    }
  }

  /** The state of the cell itself never affects its own neighbour count. */
  lemma NeighboursIgnoreCentre(g: Grid, r: int, c: int, v: int)
    requires InGrid(g, (r, c))
    ensures CheckNeighbours(g[r := g[r][c := v]], r, c) == CheckNeighbours(g, r, c)
  {
  }

  /**
   A cell of the next generation depends only on that cell and its eight
   neighbours in the old generation.
   */
  lemma NextGenIsLocal(g: Grid, h: Grid, r: int, c: int)
    requires InGrid(g, (r, c)) && InGrid(h, (r, c)) && g[r][c] == h[r][c]
    requires forall i, j :: r - 1 <= i <= r + 1 && c - 1 <= j <= c + 1 ==> Live(g, (i, j)) == Live(h, (i, j))
    ensures NextGen(g)[r][c] == NextGen(h)[r][c]
  {
    NextGenCell(g, r, c);
    NextGenCell(h, r, c);
  }

  /** A grid with no live cell is a fixed point: nothing is ever born. */
  lemma DeadGridIsStable(g: Grid)
    requires forall i, j :: 0 <= i < |g| && 0 <= j < |g[i]| ==> g[i][j] == 0
    ensures CheckStableGen(g, NextGen(g))
  {
  }

  // ---------------------------------------------------------------------------
  // The engine object
  // ---------------------------------------------------------------------------

  /** The rows of an `int[][]`. */
  ghost function Rows(g: array<array<int>>): set<array<int>>
    reads g
  {
    set i | 0 <= i < g.Length :: g[i]
  }

  /** The value held by an `int[][]` in the current heap. */
  function Cells(g: array<array<int>>): (s: Grid)
    reads g, Rows(g)
    ensures |s| == g.Length && forall i :: 0 <= i < g.Length ==> s[i] == g[i][..]
  {
    seq(g.Length, i requires 0 <= i < g.Length reads g, Rows(g) => g[i][..])
  }

  /** An `int[][]` whose rows hold the rows of `s` holds `s`. */
  lemma CellsFromRows(g: array<array<int>>, s: Grid)
    requires g.Length == |s| && forall k :: 0 <= k < g.Length ==> g[k][..] == s[k]
    ensures Cells(g) == s
  {
  }

  /**
   `BacteriaLifeLogic`: created with a grid size; owns the round counter, which
   starts at 0 and advances by one with every generation computed. Grid
   contents are passed in and returned, never retained.
   */
  class BacteriaLifeLogic {
    const size: nat
    var round: nat

    constructor (size: nat)
      ensures this.size == size && round == 0
    {
      this.size := size;
      round := 0;
    }

    /** `getRound()`: the number of generations computed so far. */
    function GetRound(): (r: nat)
      reads this
      ensures r == round
    {
      round
    }

    /**
     `generateInitialGen()`: a fresh size x size grid of 0/1 cells. The random
     draw for cell (i, j) is the parameter `coin(i, j)`. The round counter is
     not touched.
     */
    method GenerateInitialGen(coin: (int, int) -> bool) returns (g: array<array<int>>)
      ensures fresh(g) && forall i :: 0 <= i < g.Length ==> fresh(g[i])
      ensures IsSquare(Cells(g), size) && IsBinary(Cells(g))
      ensures forall i, j :: 0 <= i < size && 0 <= j < size ==> Cells(g)[i][j] == Bit(coin(i, j))
    {
      var empty := new int[0];
      g := new array<int>[size](_ => empty);
      var i := 0;
      while i < size
        invariant 0 <= i <= size == g.Length
        invariant forall k :: 0 <= k < i ==> fresh(g[k]) && g[k].Length == size
        invariant forall k, j :: 0 <= k < i && 0 <= j < size ==> g[k][j] == Bit(coin(k, j))
        invariant forall k :: i <= k < size ==> g[k] == empty
        modifies g
      {
        var row := DrawRow(coin, i, size);
        g[i] := row;
        i := i + 1;
      }
    }

    /**
     `generateNewGen(current)`: a freshly allocated grid holding the next
     generation of `current`, every cell computed from the old generation;
     `current` is left as it was and the round counter advances by one.
     The new grid has the shape of `current`, whatever the engine's size.
     */
    method GenerateNewGen(current: array<array<int>>) returns (next: array<array<int>>)
      modifies this
      ensures round == old(round) + 1
      ensures fresh(next) && forall i :: 0 <= i < next.Length ==> fresh(next[i])
      ensures Cells(next) == NextGen(Cells(current))
    {
      round := round + 1;
      var snapshot := Cells(current);
      ghost var target := NextGen(snapshot);
      var empty := new int[0];
      next := new array<int>[current.Length](_ => empty);
      var i := 0;
      while i < next.Length
        invariant 0 <= i <= next.Length == |snapshot| == |target|
        invariant forall k :: 0 <= k < i ==> fresh(next[k]) && next[k][..] == target[k]
        invariant forall k :: i <= k < next.Length ==> next[k] == empty
        invariant Cells(current) == snapshot
        modifies next
      {
        var row := NextRow(snapshot, i);
        next[i] := row;
        i := i + 1;
      }
      CellsFromRows(next, target);
    }
  }

  /** Row `i` of a fresh random grid: `n` cells, cell j drawn as `coin(i, j)`. */
  method DrawRow(coin: (int, int) -> bool, i: int, n: nat) returns (row: array<int>)
    ensures fresh(row) && row.Length == n
    ensures forall j :: 0 <= j < n ==> row[j] == Bit(coin(i, j))
  {
    row := new int[n];
    var j := 0;
    while j < n
      invariant 0 <= j <= n
      invariant forall q :: 0 <= q < j ==> row[q] == Bit(coin(i, q))
      modifies row
    {
      row[j] := if coin(i, j) then 1 else 0;
      j := j + 1;
    }
  }

  /** Row `i` of the next generation of `g`, filled cell by cell into a fresh array. */
  method NextRow(g: Grid, i: int) returns (row: array<int>)
    requires 0 <= i < |g|
    ensures fresh(row) && row[..] == NextGen(g)[i]
  {
    ghost var target := NextGen(g)[i];
    row := new int[|g[i]|];
    var j := 0;
    while j < row.Length
      invariant 0 <= j <= row.Length == |target|
      invariant forall q :: 0 <= q < j ==> row[q] == target[q]
      modifies row
    {
      NextGenCell(g, i, j);
      row[j] := Rule(g[i][j], CheckNeighbours(g, i, j));
      j := j + 1;
    }
  }
}
