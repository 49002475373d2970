/** Cell records, difficulty presets and counting over the Minesweeper grid.

    The grid is a `rows x cols` sequence of rows of cells, indexed
    `g[row][col]` as the engine's `board[row][col]`. */
module Grid {

  datatype GameState = Playing | Won | Lost

  /** One grid position, with the six attributes createBoard gives it. */
  datatype Cell = Cell(isMine: bool, isRevealed: bool, isFlagged: bool, neighborCount: int, row: int, col: int)

  /** Board dimensions and mine total of one difficulty. */
  datatype Config = Config(rows: nat, cols: nat, mines: nat)

  datatype Difficulty = Easy | Medium | Hard

  /** The three fixed difficulty presets: 9x9 with 10 mines, 16x16 with 40,
      16x30 with 99. Each has at least one mine and at least one safe cell. */
  function Preset(d: Difficulty): (c: Config)
    ensures 0 < c.mines < c.rows * c.cols
  {
    match d
    case Easy => Config(9, 9, 10)
    case Medium => Config(16, 16, 40)
    case Hard => Config(16, 30, 99)
  }

  /** The record createBoard stores at (r, c) before any mine is placed. */
  function Blank(r: int, c: int): Cell {
    Cell(false, false, false, 0, r, c)
  }

  predicate IsGrid(g: seq<seq<Cell>>, rows: int, cols: int) {
    |g| == rows && forall r :: 0 <= r < |g| ==> |g[r]| == cols
  }

  predicate InBounds(rows: int, cols: int, r: int, c: int) {
    0 <= r < rows && 0 <= c < cols
  }

  /** The grid createBoard builds with its two initial loops. */
  function BlankGrid(rows: nat, cols: nat): (g: seq<seq<Cell>>)
    ensures IsGrid(g, rows, cols)
    ensures forall r, c :: InBounds(rows, cols, r, c) ==> g[r][c] == Blank(r, c)
  {
    seq(rows, r => seq(cols, c => Blank(r, c)))
  }

  /** The cell attributes the engine counts. */
  datatype Attr = Mine | Safe | Revealed | Hidden | Flagged

  predicate Has(x: Cell, a: Attr) {
    match a
    case Mine => x.isMine
    case Safe => !x.isMine
    case Revealed => x.isRevealed
    case Hidden => !x.isRevealed
    case Flagged => x.isFlagged
  }

  function Ind(x: Cell, a: Attr): nat {
    if Has(x, a) then 1 else 0
  }

  /** Number of cells with attribute `a` among the first `n` cells of a row. */
  function CountRow(cells: seq<Cell>, a: Attr, n: nat): nat
    requires n <= |cells|
  {
    if n == 0 then 0 else CountRow(cells, a, n - 1) + Ind(cells[n - 1], a)
  }

  /** Number of cells with attribute `a` in the first `n` rows, in the
      row-major order of the engine's nested loops. */
  function CountRows(g: seq<seq<Cell>>, a: Attr, n: nat): nat
    requires n <= |g|
  {
    if n == 0 then 0 else CountRows(g, a, n - 1) + CountRow(g[n - 1], a, |g[n - 1]|)
  }

  function Count(g: seq<seq<Cell>>, a: Attr): nat {
    CountRows(g, a, |g|)
  }

  // ---------------------------------------------------------------------------
  // Counting lemmas

  lemma {:induction false} CountRowUpdate(cells: seq<Cell>, a: Attr, n: nat, i: nat, x: Cell)
    requires n <= |cells| && i < |cells|
    ensures CountRow(cells[i := x], a, n) + (if i < n then Ind(cells[i], a) else 0)
         == CountRow(cells, a, n) + (if i < n then Ind(x, a) else 0)
  {
    if n > 0 {
      CountRowUpdate(cells, a, n - 1, i, x);
    }
  }

  lemma {:induction false} CountRowsUpdate(g: seq<seq<Cell>>, a: Attr, n: nat, r: nat, c: nat, x: Cell)
    requires n <= |g| && r < |g| && c < |g[r]|
    ensures CountRows(g[r := g[r][c := x]], a, n) + (if r < n then Ind(g[r][c], a) else 0)
         == CountRows(g, a, n) + (if r < n then Ind(x, a) else 0)
  {
    if n > 0 {
      CountRowsUpdate(g, a, n - 1, r, c, x);
      if n - 1 == r {
        CountRowUpdate(g[r], a, |g[r]|, c, x);
      }
    }
  }

  /** Replacing one cell changes a count by exactly that cell's contribution. */
  lemma CountUpdate(g: seq<seq<Cell>>, a: Attr, r: nat, c: nat, x: Cell)
    requires r < |g| && c < |g[r]|
    ensures Count(g[r := g[r][c := x]], a) + Ind(g[r][c], a) == Count(g, a) + Ind(x, a)
  {
    CountRowsUpdate(g, a, |g|, r, c, x);
  }

  lemma {:induction false} CountRowMono(u: seq<Cell>, v: seq<Cell>, a: Attr, b: Attr, n: nat)
    requires n <= |u| == |v|
    requires forall i :: 0 <= i < n ==> (Has(u[i], a) ==> Has(v[i], b))
    ensures CountRow(u, a, n) <= CountRow(v, b, n)
    ensures CountRow(u, a, n) == CountRow(v, b, n) ==>
      forall i :: 0 <= i < n ==> (Has(v[i], b) ==> Has(u[i], a))
  {
    if n > 0 {
      CountRowMono(u, v, a, b, n - 1);
    }
  }

  lemma {:induction false} CountRowsMono(g: seq<seq<Cell>>, h: seq<seq<Cell>>, a: Attr, b: Attr, n: nat)
    requires n <= |g| == |h|
    requires forall r :: 0 <= r < n ==> |g[r]| == |h[r]|
    requires forall r, c :: 0 <= r < n && 0 <= c < |g[r]| ==> (Has(g[r][c], a) ==> Has(h[r][c], b))
    ensures CountRows(g, a, n) <= CountRows(h, b, n)
    ensures CountRows(g, a, n) == CountRows(h, b, n) ==>
      forall r, c :: 0 <= r < n && 0 <= c < |g[r]| ==> (Has(h[r][c], b) ==> Has(g[r][c], a))
  {
    if n > 0 {
      CountRowsMono(g, h, a, b, n - 1);
      CountRowMono(g[n - 1], h[n - 1], a, b, |g[n - 1]|);
    }
  }

  /** If every cell of `g` with `a` has `b` at the same place in `h`, then `h`
      has at least as many `b` cells, and equal counts mean the two sets of
      positions coincide. */
  lemma CountMono(g: seq<seq<Cell>>, h: seq<seq<Cell>>, a: Attr, b: Attr)
    requires |g| == |h| && forall r :: 0 <= r < |g| ==> |g[r]| == |h[r]|
    requires forall r, c :: 0 <= r < |g| && 0 <= c < |g[r]| ==> (Has(g[r][c], a) ==> Has(h[r][c], b))
    ensures Count(g, a) <= Count(h, b)
    ensures Count(g, a) == Count(h, b) ==>
      forall r, c :: 0 <= r < |g| && 0 <= c < |g[r]| ==> (Has(h[r][c], b) ==> Has(g[r][c], a))
  {
    CountRowsMono(g, h, a, b, |g|);
  }

  /** Two grids of one shape that agree on `a` everywhere have the same count. */
  lemma CountSame(g: seq<seq<Cell>>, h: seq<seq<Cell>>, a: Attr)
    requires |g| == |h| && forall r :: 0 <= r < |g| ==> |g[r]| == |h[r]|
    requires forall r, c :: 0 <= r < |g| && 0 <= c < |g[r]| ==> (Has(g[r][c], a) <==> Has(h[r][c], a))
    ensures Count(g, a) == Count(h, a)
  {
    CountMono(g, h, a, a);
    CountMono(h, g, a, a);
  }

  lemma {:induction false} CountRowZero(cells: seq<Cell>, a: Attr, n: nat)
    requires n <= |cells|
    ensures CountRow(cells, a, n) == 0 <==> forall i :: 0 <= i < n ==> !Has(cells[i], a)
  {
    if n > 0 {
      CountRowZero(cells, a, n - 1);
    }
  }

  lemma {:induction false} CountRowsZero(g: seq<seq<Cell>>, a: Attr, n: nat)
    requires n <= |g|
    ensures CountRows(g, a, n) == 0 <==>
      forall r, c :: 0 <= r < n && 0 <= c < |g[r]| ==> !Has(g[r][c], a)
  {
    if n > 0 {
      CountRowsZero(g, a, n - 1);
      CountRowZero(g[n - 1], a, |g[n - 1]|);
    }
  }

  /** A count is zero exactly when no cell has the attribute. */
  lemma CountZero(g: seq<seq<Cell>>, a: Attr)
    ensures Count(g, a) == 0 <==> forall r, c :: 0 <= r < |g| && 0 <= c < |g[r]| ==> !Has(g[r][c], a)
  {
    CountRowsZero(g, a, |g|);
  }

  lemma {:induction false} CountRowSplit(cells: seq<Cell>, n: nat)
    requires n <= |cells|
    ensures CountRow(cells, Mine, n) + CountRow(cells, Safe, n) == n
  {
    if n > 0 {
      CountRowSplit(cells, n - 1);
    }
  }

  lemma {:induction false} CountRowsSplit(g: seq<seq<Cell>>, cols: nat, n: nat)
    requires n <= |g| && forall r :: 0 <= r < |g| ==> |g[r]| == cols
    ensures CountRows(g, Mine, n) + CountRows(g, Safe, n) == n * cols
  {
    if n > 0 {
      CountRowsSplit(g, cols, n - 1);
      CountRowSplit(g[n - 1], cols);
    }
  }

  /** Every cell is a mine or safe, so the safe cells number `rows*cols` less the mines. */
  lemma CountSafe(g: seq<seq<Cell>>, rows: nat, cols: nat)
    requires IsGrid(g, rows, cols)
    ensures Count(g, Safe) == rows * cols - Count(g, Mine)
  {
    CountRowsSplit(g, cols, rows);
  }
}
