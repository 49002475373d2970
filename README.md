# Minesweeper board engine in Dafny

This project models the board engine of the browser Minesweeper game in
`script.js`:

- the difficulty presets;
- building a board: blank cells, rejection-sampled mines, neighbour counts;
- the two player actions: reveal, and flag/unflag;
- the flood-fill cascade from a zero cell;
- the win test and the end of the game.

The class `Game.Minesweeper` keeps the engine's state as fields that its
methods update in place:

- `config`;
- `board` as an `array2<Cell>`;
- `gameState`;
- `flagCount`;
- `started`, which stands for the clock having been started.

A ghost field `Cells` mirrors the array as a `seq<seq<Cell>>`, so that the
contracts can be stated with pure functions.

The files:

- `grid.dfy` (module `Grid`): the cell record, the presets, and row-major
  counting of cells by attribute, with its lemmas.
- `neighbors.dfy` (module `Neighbors`): the reference neighbour count
  `AdjacentMines`, the mines among the eight surrounding cells. It also holds
  the clamped `[max(0, x-1), min(n-1, x+1)]` box that the engine loops over,
  and the proof that the two agree.
- `rules.dfy` (module `Rules`): the board invariants and the lemmas showing
  that each kind of change keeps them. The changes are a reveal, a flag
  toggle, exposing the mines on a loss, mine placement, and the cascade.
- `minesweeper.dfy` (module `Game`): the engine class.

The invariant `Valid()` holds between any two player actions:

- the array and its mirror agree, with the configured dimensions;
- every cell records its own position;
- no cell is both revealed and flagged;
- there are exactly `mines` mines;
- every safe cell's count is its number of adjacent mines;
- `flagCount` equals the number of flagged cells;
- the board matches the game state:
  - while playing, no mine is revealed;
  - on a win, every safe cell is also revealed;
  - on a loss, every unflagged mine is revealed.

The cascade is characterised from both sides. A "finished cascade" over
a board reveals only hidden, unflagged, safe cells, and it has expanded
every zero cell it revealed. The engine's result is a finished cascade, and
it lies under every other finished cascade that reveals the clicked cell.
So it is the unique least one: nothing outside the region reachable through
zero cells is revealed.

The random source is not modelled. `Math.random` is replaced by the
sequence `draws` of `(row, col)` samples it would produce. The engine is
required to receive draws that are on the grid and that contain at least
`mines` distinct positions. That is exactly the condition under which the
rejection loop of `placeMines` stops within those draws.

## Model

| member | source | states |
|---|---|---|
| Grid.Preset | script.js:10-14 | The easy, medium and hard presets are 9x9/10, 16x16/40 and 16x30/99. Each has at least one mine and at least one safe cell. |
| Grid.CountUpdate | script.js:96-98 | Replacing one cell changes a count by exactly the removed cell's contribution and the added cell's contribution. Used for the mine total, the hidden count and the flag count. |
| Grid.CountMono | script.js:280-288 | If every cell with attribute a has b, the a-count is at most the b-count. Equal counts mean the two sets of positions coincide. |
| Grid.CountSame | script.js:103-111 | Grids that agree on an attribute at every position have equal counts. |
| Grid.CountZero | script.js:50-53 | A count is zero exactly when no cell has the attribute, in both directions. This is why a zero flag counter matches a board without flags. |
| Grid.CountSafe | script.js:278-288 | The safe cells number `rows*cols` minus the mines. |
| Neighbors.AdjacentMines | script.js:113-125 | The reference neighbour count: mines among the eight surrounding on-grid cells. It is at most 8. |
| Neighbors.SpanIsThree | script.js:116-122 | Clamping the columns to the grid drops only off-grid columns, which hold no mine. |
| Neighbors.BoxIsAdjacent | script.js:113-125 | The clamped 3x3 box, skipping the centre, counts exactly the adjacent mines. |
| Neighbors.NoAdjacentMine | script.js:199-202 | A count is zero if and only if no adjacent cell is a mine. |
| Neighbors.SameMinesSameCounts | script.js:103-111 | Grids with the same mines have the same neighbour counts. |
| Rules.LayoutKept | script.js:207-231 | A change that keeps every mine, count and position keeps the board invariants, provided it creates no revealed flag. |
| Rules.RevealsOnlyTrans | script.js:233-247 | Reveal-only changes compose. |
| Rules.RevealStep | script.js:225-231 | Revealing a hidden, unflagged, safe cell is a reveal-only step. It lowers the hidden count by exactly one. |
| Rules.RevealsOnlyKeeps | script.js:225-247 | A reveal-only change keeps the flag count and the board invariants. It never raises the hidden count and never reveals a mine. |
| Rules.ExpandedBeforeStep | script.js:234-246 | Visiting one box position moves the cascade's row-major progress on by one column. |
| Rules.ExpandedBeforeRow | script.js:234-235 | Past the box's last column, the progress moves to the next row. |
| Rules.ExpandedBeforeEnd | script.js:234 | Past the box's last row, every safe, unflagged neighbour is revealed. |
| Rules.ExpandedMono | script.js:233-247 | A cell whose neighbours are all dealt with stays so under later reveals. |
| Rules.CascadeStepNonzero | script.js:238-240 | Revealing a non-zero cell keeps the cascade closed: every newly revealed zero cell has been expanded. |
| Rules.CascadeStepZero | script.js:238-242 | Revealing a zero cell and then cascading from it keeps the cascade closed. |
| Rules.CascadeTrans | script.js:233-247 | Two closed cascade stages compose into one. |
| Rules.ClosedFrom | script.js:233-247 | A finished cascade over a board is also a finished cascade over every reveal-only stage between the two. |
| Rules.RevealBelow | script.js:225-231 | A reveal-only extension in which a cell is revealed lies above the board with just that cell revealed. |
| Rules.UnderStep | script.js:236-243 | Visiting one neighbour keeps the cascade under every finished cascade that expands the centre. |
| Rules.RevealsOnlyAntisym | script.js:233-247 | Reveal-only extension is antisymmetric, so the least finished cascade is unique. |
| Rules.RevealedWithin | script.js:233-247 | On a board without mines or flags and with nothing revealed, a finished cascade from a revealed cell reveals every cell within any king-move distance of it. |
| Rules.MineFreeRevealsAll | script.js:196-202 | On a board with no mine, no flag and nothing revealed, one finished cascade from any cell reveals the whole board, so every safe cell is revealed. |
| Rules.ToggleKeeps | script.js:218-219 | Flipping the flag of a hidden cell keeps the board invariants and the board-state agreement during play. The flag count moves by exactly +1 or -1. |
| Rules.ExposeKeeps | script.js:302-313 | After the loss loop, the invariants and flags are unchanged and every unflagged mine is revealed. |
| Rules.WinIffAllSafeRevealed | script.js:276-291 | With no mine revealed, the revealed count equals `rows*cols - mines` if and only if every safe cell is revealed. |
| Rules.MinedStep | script.js:96-98 | Placing a mine at a drawn position keeps "mines added at drawn positions only". |
| Rules.FreshBlank | script.js:90-92 | On a board without mines, every drawn position is fresh. |
| Rules.FreshEnd | script.js:92 | With no draws left, nothing is fresh. |
| Rules.FreshSkip | script.js:96 | A draw that hits a mine is rejected: the set of fresh positions is unchanged. |
| Rules.FreshTake | script.js:96-98 | An accepted draw removes exactly its own position from the fresh positions. |
| Rules.BuiltBoard | script.js:66-88 | The board built from blank cells, the placed mines and the counts satisfies the invariants. Nothing on it is revealed or flagged, and every mine is at a drawn position with count 0. |
| Game.Minesweeper.constructor | script.js:1-22 | A new engine is on the easy preset, playing, with the counter at zero, the clock not started, and a valid board on which no cell is revealed or flagged. |
| Game.Minesweeper.SelectDifficulty | script.js:40-44 | Switching difficulty installs the preset and starts a new valid game: playing, counter at zero, clock not started, and no cell revealed or flagged. |
| Game.Minesweeper.NewGame | script.js:50-64 | Resets the state, the counter and the clock, and builds a fresh valid board with nothing revealed or flagged. |
| Game.Minesweeper.CreateBoard | script.js:66-88 | Builds a fresh board of the configured shape. It has exactly `mines` mines, all at drawn positions, correct counts on safe cells, and no revealed or flagged cell. |
| Game.Minesweeper.BlankBoard | script.js:68-81 | The initial loops give every cell the blank record holding its own row and column. |
| Game.Minesweeper.PlaceMines | script.js:90-101 | The mine total rises by exactly `mines`. Only drawn positions gain a mine, and nothing else changes. |
| Game.Minesweeper.CalculateNeighborCounts | script.js:103-111 | Every safe cell gets its adjacent-mine count, and mines are left untouched. |
| Game.Minesweeper.CountNeighborMines | script.js:113-125 | The loop over the clamped box returns exactly `AdjacentMines`. |
| Game.Minesweeper.HandleCellClick | script.js:180-205 | Ignored when not playing, or when the cell is revealed or flagged. Otherwise it starts the clock. A mine means Lost with every unflagged mine exposed. A safe cell yields the least finished cascade over the old board that reveals it: a cell with a non-zero count reveals that cell alone. The state becomes Won exactly when all safe cells are revealed. Valid and the flag counter are kept. |
| Game.Minesweeper.Uncover | script.js:196-204 | The safe branch of the click yields the least finished cascade that reveals the cell, and keeps the invariants. It ends Won exactly when all safe cells are revealed, otherwise Playing. |
| Game.Minesweeper.Open | script.js:196-202 | Reveals the cell and cascades when its count is zero. The result is a finished cascade over the old board and lies under every other one that reveals the cell. With a non-zero count, exactly that one cell is revealed. |
| Game.Minesweeper.HandleCellRightClick | script.js:207-223 | Ignored when not playing or when the cell is revealed. Otherwise it starts the clock and flips that one flag. The counter moves by +1 or -1, and Valid is kept. |
| Game.Minesweeper.ToggleAt | script.js:218-219 | The board becomes the toggled board. The counter follows the new flag, and the invariants are kept. |
| Game.Minesweeper.RevealCell | script.js:225-231 | A revealed or flagged cell is left alone; otherwise exactly that cell becomes revealed. |
| Game.Minesweeper.RevealNeighbors | script.js:233-247 | Reveals only hidden, unflagged, safe cells. All safe, unflagged neighbours of the centre end up revealed, and every zero cell revealed on the way is expanded. The result lies under every finished cascade that expands the centre, so nothing beyond the zero-connected region is revealed. Termination follows from the falling hidden count. |
| Game.Minesweeper.RevealNeighbor | script.js:236-243 | A revealed, flagged or mined neighbour is left unchanged. Otherwise the neighbour is opened, giving the least finished cascade that reveals it. |
| Game.Minesweeper.CheckWinCondition | script.js:276-291 | The board is unchanged. The state becomes Won exactly when the revealed count equals `rows*cols - mines`, which is equivalent to every safe cell being revealed. |
| Game.Minesweeper.GameOver | script.js:293-321 | Sets Won or Lost. A win changes no cell; a loss reveals exactly the unflagged mines and nothing else. |

## Left out

- Rendering and the browser DOM are not modelled:
  - `initializeElements`, `bindEvents`, `renderBoard`, `createCellElement`,
    `updateCellDisplay`, `updateDisplay`, `showGameOver`, `hideGameOver`;
  - the `wrong-flag` class that the loss screen puts on flagged safe cells,
    which changes no cell field;
  - the 500 ms touch long-press, which is only another way to call the
    flag action;
  - the `DOMContentLoaded` bootstrap.
- The clock is not modelled: `startTimer`, `updateTimer`, `getElapsedTime`,
  `setInterval` and `clearInterval`. `startTime` is abstracted as the
  boolean `started`, and stopping the clock in `newGame` and `gameOver` is
  not modelled.
- `Math.random` is replaced by the `draws` sequence. The uniformity of the
  mine placement is not modelled.
- Game.Minesweeper.PlaceMines requires enough distinct on-grid draws to
  place all the mines. The source's loop would keep drawing forever if the
  random source never produced them; the model does not capture that.
- `CreateBoard` has no check on the mine count. The code has no check that
  `mines < rows*cols` and raises no configuration error, so the model has
  none either. That bound only follows for the three presets (`Grid.Preset`).
- The difficulty change reads a value from the page and looks it up in the
  preset table. `SelectDifficulty` takes the `Difficulty` value directly, so
  an unknown key cannot occur.
- Cell records in the source are mutable objects owned by the board. In the
  model they are values stored in the array, and a field update stores a
  new record. No cell is shared between positions, so nothing observable is
  lost.
