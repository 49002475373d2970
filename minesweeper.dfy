/** The Minesweeper board engine: one object holding the `rows x cols` board
    of cell records, the game state and the flag counter, with the engine's
    operations as methods that update it in place. The random mine positions
    are passed in as the sequence of (row, col) draws the random source would
    produce. */
module Game {
  import opened Grid
  import opened Neighbors
  import opened Rules

  class Minesweeper {
    var config: Config
    var board: array2<Cell>
    var gameState: GameState
    var flagCount: int
    /** Whether a first action has started the clock (startTime is set). */
    var started: bool
    /** The contents of `board`, as a value. */
    ghost var Cells: seq<seq<Cell>>

    /** `board` has the configured dimensions and `Cells` mirrors it. */
    ghost predicate Shaped()
      reads this, board
    {
      && board.Length0 == config.rows && board.Length1 == config.cols
      && IsGrid(Cells, config.rows, config.cols)
      && forall r, c :: 0 <= r < config.rows && 0 <= c < config.cols ==> board[r, c] == Cells[r][c]
    }

    /** The engine's invariant between two player actions. */
    ghost predicate Valid()
      reads this, board
    {
      && Shaped()
      && Consistent(Cells, config)
      && flagCount == Count(Cells, Flagged)
      && Agrees(Cells, gameState)
    }

    /** Stores `x` as the cell at (r, c), in the array and in its mirror. */
    method SetCell(r: int, c: int, x: Cell)
      requires Shaped() && InBounds(config.rows, config.cols, r, c)
      modifies board, this`Cells
      ensures Shaped() && Cells == old(Cells)[r := old(Cells)[r][c := x]]
    {
      board[r, c] := x;
      Cells := Cells[r := Cells[r][c := x]];
    }

    /** A new engine on the easy preset, with a fresh game. */
    constructor (draws: seq<(int, int)>)
      requires DrawsFit(Preset(Easy), draws)
      ensures Valid() && fresh(board)
      ensures config == Preset(Easy) && gameState == Playing && flagCount == 0 && !started
      ensures forall r, c :: InBounds(config.rows, config.cols, r, c) ==>
        !Cells[r][c].isRevealed && !Cells[r][c].isFlagged
    {
      config := Preset(Easy);
      board := new Cell[0, 0];
      gameState := Playing;
      flagCount := 0;
      started := false;
      Cells := [];
      new;
      NewGame(draws);
    }

    /** Switching difficulty replaces the configuration and starts a new game. */
    method SelectDifficulty(d: Difficulty, draws: seq<(int, int)>)
      requires DrawsFit(Preset(d), draws)
      modifies this
      ensures Valid() && fresh(board)
      ensures config == Preset(d) && gameState == Playing && flagCount == 0 && !started
      ensures forall r, c :: InBounds(config.rows, config.cols, r, c) ==>
        !Cells[r][c].isRevealed && !Cells[r][c].isFlagged
    {
      config := Preset(d);
      NewGame(draws);
    }

    /** Resets the state, the flag counter and the clock flag, and builds a new board. */
    method NewGame(draws: seq<(int, int)>)
      requires DrawsFit(config, draws)
      modifies this
      ensures Valid() && fresh(board) && config == old(config)
      ensures gameState == Playing && flagCount == 0 && !started
      ensures forall r, c :: InBounds(config.rows, config.cols, r, c) ==>
        !Cells[r][c].isRevealed && !Cells[r][c].isFlagged
    {
      gameState := Playing;
      flagCount := 0;
      started := false;
      CreateBoard(draws);
      CountZero(Cells, Flagged);
    }

    /** Builds a blank board, places the mines and computes the neighbour counts. */
    method CreateBoard(draws: seq<(int, int)>)
      requires DrawsFit(config, draws)
      modifies this`board, this`Cells
      ensures fresh(board) && Shaped() && Consistent(Cells, config)
      ensures forall r, c :: InBounds(config.rows, config.cols, r, c) ==>
        && !Cells[r][c].isRevealed && !Cells[r][c].isFlagged
        && (Cells[r][c].isMine ==> Cells[r][c].neighborCount == 0 && (r, c) in Drawn(draws))
    {
      board := BlankBoard(config.rows, config.cols);
      Cells := BlankGrid(config.rows, config.cols);
      ghost var g0 := Cells;
      assert Shaped();
      CountZero(g0, Mine);
      FreshBlank(config, draws);
      PlaceMines(draws);
      ghost var g1 := Cells;
      CalculateNeighborCounts();
      BuiltBoard(config, draws, g1, Cells);
    }

    /** The two initial loops of createBoard: a new `rows x cols` array of
        blank cells, each recording its own position. */
    static method BlankBoard(rows: nat, cols: nat) returns (b: array2<Cell>)
      ensures fresh(b) && b.Length0 == rows && b.Length1 == cols
      ensures forall r, c :: InBounds(rows, cols, r, c) ==> b[r, c] == Blank(r, c)
    {
      b := new Cell[rows, cols];
      var row := 0;
      while row < rows
        invariant 0 <= row <= rows
        invariant forall r, c :: 0 <= r < row && 0 <= c < cols ==> b[r, c] == Blank(r, c)
      {
        var col := 0;
        while col < cols
          invariant 0 <= col <= cols
          invariant forall r, c :: 0 <= r < row && 0 <= c < cols ==> b[r, c] == Blank(r, c)
          invariant forall c :: 0 <= c < col ==> b[row, c] == Blank(row, c)
        {
          b[row, col] := Blank(row, col);
          col := col + 1;
        }
        row := row + 1;
      }
    }

    /** Rejection sampling: each draw that hits a cell without a mine places
        one there, a draw that hits a mine is skipped, until `config.mines`
        mines have been placed. */
    method PlaceMines(draws: seq<(int, int)>)
      requires Shaped()
      requires forall k :: 0 <= k < |draws| ==> InBounds(config.rows, config.cols, draws[k].0, draws[k].1)
      requires config.mines <= |Fresh(Cells, draws, 0)|
      modifies board, this`Cells
      ensures Shaped()
      ensures Count(Cells, Mine) == old(Count(Cells, Mine)) + config.mines
      ensures MinedFrom(old(Cells), Cells, draws)
    {
      ghost var g0 := Cells;
      var minesPlaced := 0;
      var i := 0;
      while minesPlaced < config.mines
        invariant 0 <= i <= |draws| && 0 <= minesPlaced <= config.mines
        invariant Shaped()
        invariant Count(Cells, Mine) == Count(g0, Mine) + minesPlaced
        invariant config.mines - minesPlaced <= |Fresh(Cells, draws, i)|
        invariant MinedFrom(g0, Cells, draws)
        decreases |draws| - i
      {
        FreshEnd(Cells, draws);
        var row, col := draws[i].0, draws[i].1;
        if !board[row, col].isMine {
          ghost var g := Cells;
          FreshTake(g, draws, i);
          MinedStep(g0, g, draws, i);
          CountUpdate(g, Mine, row, col, g[row][col].(isMine := true));
          SetCell(row, col, board[row, col].(isMine := true));
          assert Cells == PlaceMine(g, row, col);
          assert |Fresh(Cells, draws, i + 1)| == |Fresh(g, draws, i)| - 1;
          minesPlaced := minesPlaced + 1;
        } else {
          assert Cells[row][col].isMine;
          FreshSkip(Cells, draws, i);
        }
        i := i + 1;
      }
    }

    /** Gives every safe cell its adjacent-mine count; mines are left alone. */
    method CalculateNeighborCounts()
      requires Shaped()
      modifies board, this`Cells
      ensures Shaped()
      ensures forall r, c :: InBounds(config.rows, config.cols, r, c) ==> Cells[r][c] == Counted(old(Cells), r, c)
    {
      ghost var g0 := Cells;
      var row := 0;
      while row < config.rows
        invariant 0 <= row <= config.rows
        invariant Shaped()
        invariant forall r, c :: InBounds(config.rows, config.cols, r, c) ==>
          Cells[r][c] == if r < row then Counted(g0, r, c) else g0[r][c]
      {
        var col := 0;
        while col < config.cols
          invariant 0 <= col <= config.cols
          invariant Shaped()
          invariant forall r, c :: InBounds(config.rows, config.cols, r, c) ==>
            Cells[r][c] == if r < row || (r == row && c < col) then Counted(g0, r, c) else g0[r][c]
        {
          if !board[row, col].isMine {
            var n := CountNeighborMines(row, col);
            SameMinesSameCounts(g0, Cells);
            SetCell(row, col, board[row, col].(neighborCount := n));
          }
          col := col + 1;
        }
        row := row + 1;
      }
    }

    /** Counts the mines in the clamped 3x3 box around (row, col), skipping
        the cell itself: the number of mines adjacent to it. */
    method CountNeighborMines(row: int, col: int) returns (count: nat)
      requires Shaped() && InBounds(config.rows, config.cols, row, col)
      ensures count == AdjacentMines(Cells, row, col)
    {
      count := 0;
      var r := Lo(row);
      while r <= Hi(row, config.rows)
        invariant Lo(row) <= r <= Hi(row, config.rows) + 1
        invariant count == BoxMines(Cells, config.cols, row, col, Lo(row), r)
      {
        var c := Lo(col);
        while c <= Hi(col, config.cols)
          invariant Lo(col) <= c <= Hi(col, config.cols) + 1
          invariant count == BoxMines(Cells, config.cols, row, col, Lo(row), r) + SpanMines(Cells, row, col, r, Lo(col), c)
        {
          assert Term(Cells, row, col, r, c) == if (r != row || c != col) && board[r, c].isMine then 1 else 0;
          if r != row || c != col {
            if board[r, c].isMine {
              count := count + 1;
            }
          }
          c := c + 1;
        }
        assert BoxMines(Cells, config.cols, row, col, Lo(row), r + 1) ==
          BoxMines(Cells, config.cols, row, col, Lo(row), r) + SpanMines(Cells, row, col, r, Lo(col), c);
        r := r + 1;
      }
      BoxIsAdjacent(Cells, config.rows, config.cols, row, col);
    }

    /** The primary action on (row, col). */
    method HandleCellClick(row: int, col: int)
      requires Valid() && InBounds(config.rows, config.cols, row, col)
      modifies this, board
      ensures Valid() && board == old(board) && config == old(config) && flagCount == old(flagCount)
      ensures !Clickable(old(Cells), old(gameState), row, col) ==>
        Cells == old(Cells) && gameState == old(gameState) && started == old(started)
      ensures Clickable(old(Cells), old(gameState), row, col) ==> started
      ensures Clickable(old(Cells), old(gameState), row, col) && old(Cells)[row][col].isMine ==>
        gameState == Lost && ExposedFrom(old(Cells), Cells)
      ensures Clickable(old(Cells), old(gameState), row, col) && !old(Cells)[row][col].isMine ==>
        && ClosedOver(old(Cells), Cells)
        && Cells[row][col].isRevealed
        && (forall h: seq<seq<Cell>> :: ClosedOver(old(Cells), h) && h[row][col].isRevealed ==> RevealsOnly(Cells, h))
        && (old(Cells)[row][col].neighborCount != 0 ==> Cells == Reveal(old(Cells), row, col))
        && gameState == (if AllSafeRevealed(Cells) then Won else Playing)
    {
      if gameState != Playing {
        return;
      }
      var cell := board[row, col];
      if cell.isRevealed || cell.isFlagged {
        return;
      }
      if !started {
        started := true;
      }
      if cell.isMine {
        ghost var g0 := Cells;
        GameOver(false);
        ExposeKeeps(g0, Cells, config);
      } else {
        Uncover(row, col);
      }
    }

    /** The safe-cell part of the primary action: opens (row, col), then
        checks for a win. */
    method Uncover(row: int, col: int)
      requires Valid() && InBounds(config.rows, config.cols, row, col)
      requires Clickable(Cells, gameState, row, col) && !Cells[row][col].isMine
      modifies board, this`Cells, this`gameState
      ensures Valid()
      ensures ClosedOver(old(Cells), Cells) && Cells[row][col].isRevealed
      ensures forall h: seq<seq<Cell>> :: ClosedOver(old(Cells), h) && h[row][col].isRevealed ==> RevealsOnly(Cells, h)
      ensures old(Cells)[row][col].neighborCount != 0 ==> Cells == Reveal(old(Cells), row, col)
      ensures gameState == (if AllSafeRevealed(Cells) then Won else Playing)
    {
      ghost var g0 := Cells;
      Open(row, col);
      RevealsOnlyKeeps(g0, Cells, config);
      ghost var g1 := Cells;
      assert Valid();
      CheckWinCondition();
      assert Cells == g1;
    }

    /** Reveals the hidden, unflagged, safe cell (row, col) and cascades from
        it when its count is zero. The result is the least finished cascade
        over the old board that reveals (row, col). */
    method Open(row: int, col: int)
      requires Shaped() && InBounds(config.rows, config.cols, row, col)
      requires !Cells[row][col].isRevealed && !Cells[row][col].isFlagged && !Cells[row][col].isMine
      modifies board, this`Cells
      decreases Count(Cells, Hidden), 0
      ensures Shaped()
      ensures ClosedOver(old(Cells), Cells) && Cells[row][col].isRevealed
      ensures forall h: seq<seq<Cell>> :: ClosedOver(old(Cells), h) && h[row][col].isRevealed ==> RevealsOnly(Cells, h)
      ensures old(Cells)[row][col].neighborCount != 0 ==> Cells == Reveal(old(Cells), row, col)
    {
      ghost var g0 := Cells;
      var zero := board[row, col].neighborCount == 0;
      RevealCell(row, col);
      RevealStep(g0, row, col);
      ghost var g1 := Cells;
      if zero {
        RevealNeighbors(row, col);
        CascadeStepZero(g0, g0, row, col, Cells);
        RevealsOnlyTrans(g0, g1, Cells);
        forall h: seq<seq<Cell>> | ClosedOver(g0, h) && h[row][col].isRevealed ensures RevealsOnly(Cells, h) {
          RevealBelow(g0, h, row, col);
          ClosedFrom(g0, g1, h);
          assert RevealedFrom(g0[row][col], h[row][col]);
        }
      } else {
        CascadeStepNonzero(g0, g0, row, col);
        forall h: seq<seq<Cell>> | ClosedOver(g0, h) && h[row][col].isRevealed ensures RevealsOnly(Cells, h) {
          RevealBelow(g0, h, row, col);
        }
      }
    }

    /** The secondary action on (row, col): flips the flag of a hidden cell
        and keeps the flag counter in step. */
    method HandleCellRightClick(row: int, col: int)
      requires Valid() && InBounds(config.rows, config.cols, row, col)
      modifies this, board
      ensures Valid() && board == old(board) && config == old(config) && gameState == old(gameState)
      ensures old(gameState) != Playing || old(Cells)[row][col].isRevealed ==>
        Cells == old(Cells) && flagCount == old(flagCount) && started == old(started)
      ensures old(gameState) == Playing && !old(Cells)[row][col].isRevealed ==>
        && started
        && Cells == ToggleFlag(old(Cells), row, col)
        && flagCount == old(flagCount) + (if Cells[row][col].isFlagged then 1 else -1)
    {
      if gameState != Playing {
        return;
      }
      var cell := board[row, col];
      if cell.isRevealed {
        return;
      }
      if !started {
        started := true;
      }
      ToggleAt(row, col);
    }

    /** Flips the flag of the hidden cell (row, col) and moves the flag
        counter with it. */
    method ToggleAt(row: int, col: int)
      requires Valid() && gameState == Playing && InBounds(config.rows, config.cols, row, col)
      requires !Cells[row][col].isRevealed
      modifies board, this`Cells, this`flagCount
      ensures Valid() && Cells == ToggleFlag(old(Cells), row, col)
      ensures flagCount == old(flagCount) + (if Cells[row][col].isFlagged then 1 else -1)
    {
      ghost var g := Cells;
      ToggleKeeps(g, row, col, config, gameState);
      var cell := board[row, col];
      cell := cell.(isFlagged := !cell.isFlagged);
      SetCell(row, col, cell);
      flagCount := flagCount + if cell.isFlagged then 1 else -1;
    }

    /** Reveals (row, col) unless it is already revealed or flagged. */
    method RevealCell(row: int, col: int)
      requires Shaped() && InBounds(config.rows, config.cols, row, col)
      modifies board, this`Cells
      ensures Shaped()
      ensures Cells == if old(Cells)[row][col].isRevealed || old(Cells)[row][col].isFlagged
                       then old(Cells) else Reveal(old(Cells), row, col)
    {
      if board[row, col].isRevealed || board[row, col].isFlagged {
        return;
      }
      SetCell(row, col, board[row, col].(isRevealed := true));
    }

    /** The cascade from the zero cell (row, col): reveals every hidden,
        unflagged, safe neighbour and cascades again from each such neighbour
        whose count is zero. The result is the least finished cascade over
        the old board that expands (row, col). Every recursive call follows a
        reveal, so the number of hidden cells strictly decreases. */
    method RevealNeighbors(row: int, col: int)
      requires Shaped() && InBounds(config.rows, config.cols, row, col)
      modifies board, this`Cells
      decreases Count(Cells, Hidden), 2
      ensures Shaped()
      ensures ClosedOver(old(Cells), Cells) && Expanded(Cells, row, col)
      ensures forall h: seq<seq<Cell>> :: ClosedOver(old(Cells), h) && Expanded(h, row, col) ==> RevealsOnly(Cells, h)
    {
      ghost var g0 := Cells;
      var r := Lo(row);
      while r <= Hi(row, config.rows)
        invariant Lo(row) <= r <= Hi(row, config.rows) + 1
        invariant Shaped()
        invariant RevealsOnly(g0, Cells) && CascadeClosed(g0, Cells)
        invariant Count(Cells, Hidden) <= Count(g0, Hidden)
        invariant ExpandedBefore(Cells, row, col, r, Lo(col))
        invariant UnderExpansions(g0, Cells, row, col)
      {
        var c := Lo(col);
        while c <= Hi(col, config.cols)
          invariant Lo(col) <= c <= Hi(col, config.cols) + 1
          invariant Shaped()
          invariant RevealsOnly(g0, Cells) && CascadeClosed(g0, Cells)
          invariant Count(Cells, Hidden) <= Count(g0, Hidden)
          invariant ExpandedBefore(Cells, row, col, r, c)
          invariant UnderExpansions(g0, Cells, row, col)
        {
          ghost var g := Cells;
          if r != row || c != col {
            RevealNeighbor(r, c);
            CascadeTrans(g0, g, Cells);
            RevealsOnlyKeeps(g0, Cells, config);
            UnderStep(g0, g, Cells, row, col, r, c);
          }
          ExpandedBeforeStep(g, Cells, row, col, r, c);
          c := c + 1;
        }
        ExpandedBeforeRow(Cells, config.cols, row, col, r);
        r := r + 1;
      }
      ExpandedBeforeEnd(Cells, config.rows, row, col, Lo(col));
    }

    /** One neighbour visited by the cascade: a hidden, unflagged, safe cell
        is opened; any other cell is left alone. */
    method RevealNeighbor(r: int, c: int)
      requires Shaped() && InBounds(config.rows, config.cols, r, c)
      modifies board, this`Cells
      decreases Count(Cells, Hidden), 1
      ensures Shaped() && ClosedOver(old(Cells), Cells)
      ensures !old(Cells)[r][c].isMine && !old(Cells)[r][c].isFlagged ==> Cells[r][c].isRevealed
      ensures old(Cells)[r][c].isRevealed || old(Cells)[r][c].isFlagged || old(Cells)[r][c].isMine ==>
        Cells == old(Cells)
      ensures forall h: seq<seq<Cell>> ::
        ClosedOver(old(Cells), h) && (!old(Cells)[r][c].isMine && !old(Cells)[r][c].isFlagged ==> h[r][c].isRevealed)
        ==> RevealsOnly(Cells, h)
    {
      var neighborCell := board[r, c];
      if !neighborCell.isRevealed && !neighborCell.isFlagged && !neighborCell.isMine {
        Open(r, c);
      } else {
        assert RevealsOnly(Cells, Cells);
      }
    }

    /** Counts the revealed cells and ends the game as won when they number
        `rows*cols - mines`. */
    method CheckWinCondition()
      requires Valid() && gameState == Playing
      modifies this`gameState, board, this`Cells
      ensures Valid() && Cells == old(Cells)
      ensures gameState == (if Count(Cells, Revealed) == config.rows * config.cols - config.mines then Won else Playing)
      ensures gameState == Won <==> AllSafeRevealed(Cells)
    {
      var revealedCount := 0;
      var totalCells := config.rows * config.cols;
      var row := 0;
      while row < config.rows
        invariant 0 <= row <= config.rows
        invariant revealedCount == CountRows(Cells, Revealed, row)
      {
        var col := 0;
        while col < config.cols
          invariant 0 <= col <= config.cols
          invariant revealedCount == CountRows(Cells, Revealed, row) + CountRow(Cells[row], Revealed, col)
        {
          if board[row, col].isRevealed {
            revealedCount := revealedCount + 1;
          }
          col := col + 1;
        }
        row := row + 1;
      }
      assert revealedCount == Count(Cells, Revealed);
      WinIffAllSafeRevealed(Cells, config);
      if revealedCount == totalCells - config.mines {
        GameOver(true);
        assert Agrees(Cells, gameState);
      }
    }

    /** Ends the game. On a loss every unflagged mine is revealed; a win
        changes no cell. */
    method GameOver(won: bool)
      requires Shaped()
      modifies this`gameState, board, this`Cells
      ensures Shaped() && gameState == (if won then Won else Lost)
      ensures if won then Cells == old(Cells) else ExposedFrom(old(Cells), Cells)
    {
      gameState := if won then Won else Lost;
      var row := 0;
      while row < config.rows
        invariant 0 <= row <= config.rows
        invariant Shaped() && gameState == (if won then Won else Lost)
        invariant won ==> Cells == old(Cells)
        invariant forall r, c :: InBounds(config.rows, config.cols, r, c) ==>
          Cells[r][c] == if won || r >= row then old(Cells)[r][c] else Exposed(old(Cells)[r][c])
      {
        var col := 0;
        while col < config.cols
          invariant 0 <= col <= config.cols
          invariant Shaped() && gameState == (if won then Won else Lost)
          invariant won ==> Cells == old(Cells)
          invariant forall r, c :: InBounds(config.rows, config.cols, r, c) ==>
            Cells[r][c] == if won || r > row || (r == row && c >= col) then old(Cells)[r][c] else Exposed(old(Cells)[r][c])
        {
          var cell := board[row, col];
          if !won {
            // A flagged safe cell is only marked as a wrong flag on screen.
            if cell.isMine && !cell.isFlagged {
              SetCell(row, col, cell.(isRevealed := true));
            }
          }
          col := col + 1;
        }
        row := row + 1;
      }
    }
  }
}
