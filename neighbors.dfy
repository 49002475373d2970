/** Neighbour counts: the reference definition (mines among the eight cells at
    Chebyshev distance 1, off-grid positions counting nothing) and the clamped
    `[max(0, x-1), min(n-1, x+1)]` box that countNeighborMines and
    revealNeighbors iterate over. */
module Neighbors {
  import opened Grid

  /** 1 when (r, c) is on the grid and holds a mine, 0 otherwise. */
  function MineAt(g: seq<seq<Cell>>, r: int, c: int): nat {
    if 0 <= r < |g| && 0 <= c < |g[r]| && g[r][c].isMine then 1 else 0
  }

  /** (r2, c2) is one of the eight cells around (r, c). */
  predicate Adjacent(r: int, c: int, r2: int, c2: int) {
    r - 1 <= r2 <= r + 1 && c - 1 <= c2 <= c + 1 && (r2 != r || c2 != c)
  }

  /** The number of mines adjacent to (r, c); at most eight. */
  function AdjacentMines(g: seq<seq<Cell>>, r: int, c: int): (n: nat)
    ensures n <= 8
  {
    MineAt(g, r - 1, c - 1) + MineAt(g, r - 1, c) + MineAt(g, r - 1, c + 1)
    + MineAt(g, r, c - 1) + MineAt(g, r, c + 1)
    + MineAt(g, r + 1, c - 1) + MineAt(g, r + 1, c) + MineAt(g, r + 1, c + 1)
  }

  /** `Math.max(0, x - 1)`: the first row (column) of the box around x. */
  function Lo(x: int): int {
    if x - 1 < 0 then 0 else x - 1
  }

  /** `Math.min(n - 1, x + 1)`: the last row (column) of the box around x. */
  function Hi(x: int, n: int): int {
    if n - 1 < x + 1 then n - 1 else x + 1
  }

  /** A box position other than the centre (row, col) contributes its mine. */
  function Term(g: seq<seq<Cell>>, row: int, col: int, r: int, c: int): nat {
    if r == row && c == col then 0 else MineAt(g, r, c)
  }

  /** Mines counted on row r at columns lo .. hi-1, the inner loop's partial sum. */
  function SpanMines(g: seq<seq<Cell>>, row: int, col: int, r: int, lo: int, hi: int): nat
    decreases hi - lo
  {
    if hi <= lo then 0 else SpanMines(g, row, col, r, lo, hi - 1) + Term(g, row, col, r, hi - 1)
  }

  /** Mines counted on rows lo .. hi-1 of the clamped box, the outer loop's partial sum. */
  function BoxMines(g: seq<seq<Cell>>, cols: int, row: int, col: int, lo: int, hi: int): nat
    decreases hi - lo
  {
    if hi <= lo then 0
    else BoxMines(g, cols, row, col, lo, hi - 1) + SpanMines(g, row, col, hi - 1, Lo(col), Hi(col, cols) + 1)
  }

  /** The row r part of the reference count: columns col-1, col, col+1. */
  function Three(g: seq<seq<Cell>>, row: int, col: int, r: int): nat {
    Term(g, row, col, r, col - 1) + Term(g, row, col, r, col) + Term(g, row, col, r, col + 1)
  }

  /** Clamping the columns drops only off-grid columns, which hold no mine. */
  lemma SpanIsThree(g: seq<seq<Cell>>, rows: int, cols: int, row: int, col: int, r: int)
    requires IsGrid(g, rows, cols) && 0 <= col < cols
    ensures SpanMines(g, row, col, r, Lo(col), Hi(col, cols) + 1) == Three(g, row, col, r)
  {
    var lo, hi := Lo(col), Hi(col, cols) + 1;
    assert Term(g, row, col, r, col - 1) == 0 || lo == col - 1;
    assert Term(g, row, col, r, col + 1) == 0 || hi == col + 2;
    if lo == col - 1 {
      assert SpanMines(g, row, col, r, lo, lo + 1) == Term(g, row, col, r, col - 1);
    }
    assert SpanMines(g, row, col, r, lo, col + 1) ==
      Term(g, row, col, r, col - 1) + Term(g, row, col, r, col);
  }

  /** The clamped box the engine loops over counts exactly the adjacent mines. */
  lemma BoxIsAdjacent(g: seq<seq<Cell>>, rows: int, cols: int, row: int, col: int)
    requires IsGrid(g, rows, cols) && InBounds(rows, cols, row, col)
    ensures BoxMines(g, cols, row, col, Lo(row), Hi(row, rows) + 1) == AdjacentMines(g, row, col)
  {
    var lo, hi := Lo(row), Hi(row, rows) + 1;
    SpanIsThree(g, rows, cols, row, col, row - 1);
    SpanIsThree(g, rows, cols, row, col, row);
    SpanIsThree(g, rows, cols, row, col, row + 1);
    assert Three(g, row, col, row - 1) == 0 || lo == row - 1;
    assert Three(g, row, col, row + 1) == 0 || hi == row + 2;
    if lo == row - 1 {
      assert BoxMines(g, cols, row, col, lo, lo + 1) == Three(g, row, col, row - 1);
    }
    assert BoxMines(g, cols, row, col, lo, row + 1) ==
      Three(g, row, col, row - 1) + Three(g, row, col, row);
  }

  /** A cell has no adjacent mine exactly when its count is zero; on a board
      without mines every count is therefore zero. */
  lemma NoAdjacentMine(g: seq<seq<Cell>>, r: int, c: int)
    ensures AdjacentMines(g, r, c) == 0 <==>
      forall r2, c2 :: 0 <= r2 < |g| && 0 <= c2 < |g[r2]| && Adjacent(r, c, r2, c2) ==> !g[r2][c2].isMine
  {
    if AdjacentMines(g, r, c) == 0 {
      forall r2, c2 | 0 <= r2 < |g| && 0 <= c2 < |g[r2]| && Adjacent(r, c, r2, c2)
        ensures !g[r2][c2].isMine
      {
        assert MineAt(g, r2, c2) == 0;
      }
    }
  }

  /** Grids of one shape with the same mines have the same neighbour counts. */
  lemma SameMinesSameCounts(g: seq<seq<Cell>>, h: seq<seq<Cell>>)
    requires |g| == |h| && forall r :: 0 <= r < |g| ==> |g[r]| == |h[r]|
    requires forall r, c :: 0 <= r < |g| && 0 <= c < |g[r]| ==> g[r][c].isMine == h[r][c].isMine
    ensures forall r, c :: AdjacentMines(g, r, c) == AdjacentMines(h, r, c)
  {
    assert forall r, c :: MineAt(g, r, c) == MineAt(h, r, c);
  }
}
