/** The invariants of a Minesweeper board and the lemmas showing which board
    changes keep them: a reveal, a flag toggle, exposing the mines on a loss,
    and the win test. */
module Rules {
  import opened Grid
  import opened Neighbors

  predicate SameShape(g: seq<seq<Cell>>, h: seq<seq<Cell>>) {
    |g| == |h| && forall r :: 0 <= r < |g| ==> |g[r]| == |h[r]|
  }

  /** Every cell records its own position. */
  predicate Positioned(g: seq<seq<Cell>>) {
    forall r, c :: 0 <= r < |g| && 0 <= c < |g[r]| ==> g[r][c].row == r && g[r][c].col == c
  }

  /** No cell is both revealed and flagged. */
  predicate NoRevealedFlag(g: seq<seq<Cell>>) {
    forall r, c :: 0 <= r < |g| && 0 <= c < |g[r]| ==> !(g[r][c].isRevealed && g[r][c].isFlagged)
  }

  /** Every safe cell's neighbour count is the number of mines around it. */
  predicate CountsCorrect(g: seq<seq<Cell>>) {
    forall r, c :: 0 <= r < |g| && 0 <= c < |g[r]| && !g[r][c].isMine ==>
      g[r][c].neighborCount == AdjacentMines(g, r, c)
  }

  /** The board invariants that hold from the end of createBoard on. */
  predicate Consistent(g: seq<seq<Cell>>, cfg: Config) {
    && IsGrid(g, cfg.rows, cfg.cols)
    && Positioned(g)
    && NoRevealedFlag(g)
    && Count(g, Mine) == cfg.mines
    && CountsCorrect(g)
  }

  predicate NoMineRevealed(g: seq<seq<Cell>>) {
    forall r, c :: 0 <= r < |g| && 0 <= c < |g[r]| && g[r][c].isRevealed ==> !g[r][c].isMine
  }

  predicate AllSafeRevealed(g: seq<seq<Cell>>) {
    forall r, c :: 0 <= r < |g| && 0 <= c < |g[r]| && !g[r][c].isMine ==> g[r][c].isRevealed
  }

  /** Every mine the player has not flagged is shown. */
  predicate MinesExposed(g: seq<seq<Cell>>) {
    forall r, c :: 0 <= r < |g| && 0 <= c < |g[r]| && g[r][c].isMine && !g[r][c].isFlagged ==> g[r][c].isRevealed
  }

  /** What the board looks like in each game state. */
  predicate Agrees(g: seq<seq<Cell>>, s: GameState) {
    match s
    case Playing => NoMineRevealed(g)
    case Won => NoMineRevealed(g) && AllSafeRevealed(g)
    case Lost => MinesExposed(g)
  }

  /** Same shape, and every cell keeps its mine, count and position. */
  predicate SameLayout(g: seq<seq<Cell>>, h: seq<seq<Cell>>) {
    SameShape(g, h) &&
    forall r, c :: 0 <= r < |g| && 0 <= c < |g[r]| ==>
      h[r][c].isMine == g[r][c].isMine && h[r][c].neighborCount == g[r][c].neighborCount &&
      h[r][c].row == g[r][c].row && h[r][c].col == g[r][c].col
  }

  /** A change that leaves every mine, count and position alone keeps the
      board consistent as long as it creates no revealed flag. */
  lemma LayoutKept(g: seq<seq<Cell>>, h: seq<seq<Cell>>, cfg: Config)
    requires Consistent(g, cfg) && SameLayout(g, h) && NoRevealedFlag(h)
    ensures Consistent(h, cfg)
  {
    CountSame(g, h, Mine);
    SameMinesSameCounts(g, h);
  }

  // ---------------------------------------------------------------------------
  // Revealing

  /** `y` is `x`, or `x` was a hidden, unflagged, safe cell and `y` is `x` revealed. */
  predicate RevealedFrom(x: Cell, y: Cell) {
    y == x || (y == x.(isRevealed := true) && !x.isRevealed && !x.isMine && !x.isFlagged)
  }

  /** `h` differs from `g` only by revealing hidden, unflagged, safe cells. */
  predicate RevealsOnly(g: seq<seq<Cell>>, h: seq<seq<Cell>>) {
    SameShape(g, h) &&
    forall r, c :: 0 <= r < |g| && 0 <= c < |g[r]| ==> RevealedFrom(g[r][c], h[r][c])
  }

  /** The grid with the one cell (r, c) revealed. */
  function Reveal(g: seq<seq<Cell>>, r: nat, c: nat): (h: seq<seq<Cell>>)
    requires r < |g| && c < |g[r]|
    ensures SameShape(g, h) && h[r][c].isRevealed
  {
    g[r := g[r][c := g[r][c].(isRevealed := true)]]
  }

  lemma RevealsOnlyTrans(g: seq<seq<Cell>>, h: seq<seq<Cell>>, k: seq<seq<Cell>>)
    requires RevealsOnly(g, h) && RevealsOnly(h, k)
    ensures RevealsOnly(g, k)
  {
    forall r, c | 0 <= r < |g| && 0 <= c < |g[r]|
      ensures RevealedFrom(g[r][c], k[r][c])
    {
      assert RevealedFrom(g[r][c], h[r][c]) && RevealedFrom(h[r][c], k[r][c]);
    }
  }

  /** Revealing a hidden, unflagged, safe cell is a reveal-only step that
      lowers the number of hidden cells by one. */
  lemma RevealStep(g: seq<seq<Cell>>, r: nat, c: nat)
    requires r < |g| && c < |g[r]|
    requires !g[r][c].isRevealed && !g[r][c].isFlagged && !g[r][c].isMine
    ensures RevealsOnly(g, Reveal(g, r, c))
    ensures Count(Reveal(g, r, c), Hidden) + 1 == Count(g, Hidden)
  {
    CountUpdate(g, Hidden, r, c, g[r][c].(isRevealed := true));
  }

  /** A reveal-only change never adds hidden cells, keeps the flags and the
      board invariants, and reveals no mine. */
  lemma RevealsOnlyKeeps(g: seq<seq<Cell>>, h: seq<seq<Cell>>, cfg: Config)
    requires RevealsOnly(g, h)
    ensures Count(h, Hidden) <= Count(g, Hidden)
    ensures Count(h, Flagged) == Count(g, Flagged)
    ensures NoMineRevealed(g) ==> NoMineRevealed(h)
    ensures Consistent(g, cfg) ==> Consistent(h, cfg)
  {
    CountMono(h, g, Hidden, Hidden);
    CountSame(g, h, Flagged);
    if Consistent(g, cfg) {
      LayoutKept(g, h, cfg);
    }
  }

  /** Every safe, unflagged neighbour of (r, c) is revealed: the cascade has
      expanded (r, c). */
  predicate Expanded(g: seq<seq<Cell>>, r: int, c: int) {
    forall r2, c2 ::
      0 <= r2 < |g| && 0 <= c2 < |g[r2]| && Adjacent(r, c, r2, c2) && !g[r2][c2].isMine && !g[r2][c2].isFlagged
      ==> g[r2][c2].isRevealed
  }

  /** The cascade from (row, col) has dealt with every neighbour before
      (r, c) in row-major order. */
  predicate ExpandedBefore(g: seq<seq<Cell>>, row: int, col: int, r: int, c: int) {
    forall r2, c2 ::
      0 <= r2 < |g| && 0 <= c2 < |g[r2]| && Adjacent(row, col, r2, c2) && (r2 < r || (r2 == r && c2 < c))
      && !g[r2][c2].isMine && !g[r2][c2].isFlagged
      ==> g[r2][c2].isRevealed
  }

  /** Visiting (r, c) moves the cascade's position one column on. */
  lemma ExpandedBeforeStep(g: seq<seq<Cell>>, h: seq<seq<Cell>>, row: int, col: int, r: nat, c: nat)
    requires ExpandedBefore(g, row, col, r, c) && RevealsOnly(g, h)
    requires r < |h| && c < |h[r]|
    requires (r != row || c != col) ==> (!h[r][c].isMine && !h[r][c].isFlagged ==> h[r][c].isRevealed)
    ensures ExpandedBefore(h, row, col, r, c + 1)
  {
    forall r2, c2 | 0 <= r2 < |h| && 0 <= c2 < |h[r2]| && Adjacent(row, col, r2, c2) && (r2 < r || (r2 == r && c2 < c + 1))
      && !h[r2][c2].isMine && !h[r2][c2].isFlagged
      ensures h[r2][c2].isRevealed
    {
      assert RevealedFrom(g[r2][c2], h[r2][c2]);
    }
  }

  /** Past the last column of the box, the cascade moves on to the next row. */
  lemma ExpandedBeforeRow(g: seq<seq<Cell>>, cols: nat, row: int, col: int, r: int)
    requires forall r2 :: 0 <= r2 < |g| ==> |g[r2]| == cols
    requires ExpandedBefore(g, row, col, r, Hi(col, cols) + 1)
    ensures ExpandedBefore(g, row, col, r + 1, Lo(col))
  {
  }

  /** Past the last row of the box, every neighbour has been dealt with. */
  lemma ExpandedBeforeEnd(g: seq<seq<Cell>>, rows: nat, row: int, col: int, c: int)
    requires |g| == rows && ExpandedBefore(g, row, col, Hi(row, rows) + 1, c)
    ensures Expanded(g, row, col)
  {
  }

  /** Every cell revealed since `g0` whose neighbour count is zero has been expanded. */
  predicate CascadeClosed(g0: seq<seq<Cell>>, g: seq<seq<Cell>>)
    requires SameShape(g0, g)
  {
    forall r, c ::
      0 <= r < |g| && 0 <= c < |g[r]| && !g0[r][c].isRevealed && g[r][c].isRevealed && g[r][c].neighborCount == 0
      ==> Expanded(g, r, c)
  }

  /** `h` extends `g0` by reveals only and has expanded every zero cell it
      revealed: a finished cascade over `g0`. */
  predicate ClosedOver(g0: seq<seq<Cell>>, h: seq<seq<Cell>>) {
    RevealsOnly(g0, h) && CascadeClosed(g0, h)
  }

  /** A finished cascade over `g0` is one over every reveal-only stage `g`
      between the two. */
  lemma ClosedFrom(g0: seq<seq<Cell>>, g: seq<seq<Cell>>, h: seq<seq<Cell>>)
    requires RevealsOnly(g0, g) && RevealsOnly(g, h) && CascadeClosed(g0, h)
    ensures ClosedOver(g, h)
  {
    forall r, c | 0 <= r < |h| && 0 <= c < |h[r]| && !g[r][c].isRevealed &&
      h[r][c].isRevealed && h[r][c].neighborCount == 0
      ensures Expanded(h, r, c)
    {
      assert RevealedFrom(g0[r][c], g[r][c]);
    }
  }

  /** A reveal-only extension of `g` in which (r, c) is revealed extends
      `Reveal(g, r, c)`. */
  lemma RevealBelow(g: seq<seq<Cell>>, h: seq<seq<Cell>>, r: nat, c: nat)
    requires RevealsOnly(g, h) && r < |g| && c < |g[r]| && h[r][c].isRevealed
    ensures RevealsOnly(Reveal(g, r, c), h)
  {
    var g1 := Reveal(g, r, c);
    forall r2, c2 | 0 <= r2 < |g1| && 0 <= c2 < |g1[r2]| ensures RevealedFrom(g1[r2][c2], h[r2][c2]) {
      assert RevealedFrom(g[r2][c2], h[r2][c2]);
    }
  }

  /** `g` lies under every finished cascade over `g0` that expands (row, col). */
  ghost predicate UnderExpansions(g0: seq<seq<Cell>>, g: seq<seq<Cell>>, row: int, col: int) {
    forall h: seq<seq<Cell>> :: ClosedOver(g0, h) && Expanded(h, row, col) ==> RevealsOnly(g, h)
  }

  /** Visiting the neighbour (r, c) of (row, col) keeps the cascade under
      every finished cascade that expands (row, col): such a cascade reveals
      (r, c) when it is safe and unflagged, and so lies above the visit. */
  lemma UnderStep(g0: seq<seq<Cell>>, g: seq<seq<Cell>>, g1: seq<seq<Cell>>, row: int, col: int, r: nat, c: nat)
    requires RevealsOnly(g0, g) && UnderExpansions(g0, g, row, col)
    requires r < |g| && c < |g[r]| && Adjacent(row, col, r, c)
    requires forall h: seq<seq<Cell>> ::
      ClosedOver(g, h) && (!g[r][c].isMine && !g[r][c].isFlagged ==> h[r][c].isRevealed) ==> RevealsOnly(g1, h)
    ensures UnderExpansions(g0, g1, row, col)
  {
    forall h: seq<seq<Cell>> | ClosedOver(g0, h) && Expanded(h, row, col) ensures RevealsOnly(g1, h) {
      ClosedFrom(g0, g, h);
      assert RevealedFrom(g[r][c], h[r][c]);
    }
  }

  /** Reveal-only extension is antisymmetric, so a least finished cascade
      is unique. */
  lemma RevealsOnlyAntisym(g: seq<seq<Cell>>, h: seq<seq<Cell>>)
    requires RevealsOnly(g, h) && RevealsOnly(h, g)
    ensures g == h
  {
    forall r | 0 <= r < |g| ensures g[r] == h[r] {
      forall c | 0 <= c < |g[r]| ensures g[r][c] == h[r][c] {
        assert RevealedFrom(g[r][c], h[r][c]) && RevealedFrom(h[r][c], g[r][c]);
      }
    }
  }

  lemma ExpandedMono(g: seq<seq<Cell>>, h: seq<seq<Cell>>, r: int, c: int)
    requires RevealsOnly(g, h) && Expanded(g, r, c)
    ensures Expanded(h, r, c)
  {
    forall r2, c2 | 0 <= r2 < |h| && 0 <= c2 < |h[r2]| && Adjacent(r, c, r2, c2) &&
      !h[r2][c2].isMine && !h[r2][c2].isFlagged
      ensures h[r2][c2].isRevealed
    {
      assert RevealedFrom(g[r2][c2], h[r2][c2]);
    }
  }

  /** Revealing a cell whose count is not zero keeps the cascade closed: it
      has no neighbours to expand. */
  lemma CascadeStepNonzero(g0: seq<seq<Cell>>, g1: seq<seq<Cell>>, r: nat, c: nat)
    requires RevealsOnly(g0, g1) && CascadeClosed(g0, g1)
    requires r < |g1| && c < |g1[r]|
    requires !g1[r][c].isRevealed && !g1[r][c].isFlagged && !g1[r][c].isMine
    requires g1[r][c].neighborCount != 0
    ensures CascadeClosed(g0, Reveal(g1, r, c))
  {
    var g2: seq<seq<Cell>> := Reveal(g1, r, c);
    RevealStep(g1, r, c);
    forall r2: int, c2: int | 0 <= r2 < |g2| && 0 <= c2 < |g2[r2]| && !g0[r2][c2].isRevealed &&
      g2[r2][c2].isRevealed && g2[r2][c2].neighborCount == 0
      ensures Expanded(g2, r2, c2)
    {
      ExpandedMono(g1, g2, r2, c2);
    }
  }

  /** Revealing a zero cell and then cascading from it keeps the cascade
      closed, once the cascade has expanded that cell and closed everything
      it revealed itself. */
  lemma CascadeStepZero(g0: seq<seq<Cell>>, g1: seq<seq<Cell>>, r: nat, c: nat, g3: seq<seq<Cell>>)
    requires RevealsOnly(g0, g1) && CascadeClosed(g0, g1)
    requires r < |g1| && c < |g1[r]|
    requires !g1[r][c].isRevealed && !g1[r][c].isFlagged && !g1[r][c].isMine
    requires RevealsOnly(Reveal(g1, r, c), g3)
    requires Expanded(g3, r, c) && CascadeClosed(Reveal(g1, r, c), g3)
    ensures CascadeClosed(g0, g3)
  {
    var g2: seq<seq<Cell>> := Reveal(g1, r, c);
    RevealStep(g1, r, c);
    RevealsOnlyTrans(g1, g2, g3);
    forall r2: int, c2: int | 0 <= r2 < |g3| && 0 <= c2 < |g3[r2]| && !g0[r2][c2].isRevealed &&
      g3[r2][c2].isRevealed && g3[r2][c2].neighborCount == 0
      ensures Expanded(g3, r2, c2)
    {
      if (r2 != r || c2 != c) && g2[r2][c2].isRevealed {
        assert RevealedFrom(g1[r2][c2], g3[r2][c2]);
        ExpandedMono(g1, g3, r2, c2);
      }
    }
  }

  /** Two cascade stages compose: a cell revealed in either stage with count
      zero is expanded at the end, since later stages only reveal more. */
  lemma CascadeTrans(g0: seq<seq<Cell>>, g1: seq<seq<Cell>>, g2: seq<seq<Cell>>)
    requires RevealsOnly(g0, g1) && CascadeClosed(g0, g1)
    requires RevealsOnly(g1, g2) && CascadeClosed(g1, g2)
    ensures RevealsOnly(g0, g2) && CascadeClosed(g0, g2)
  {
    RevealsOnlyTrans(g0, g1, g2);
    forall r: int, c: int | 0 <= r < |g2| && 0 <= c < |g2[r]| && !g0[r][c].isRevealed &&
      g2[r][c].isRevealed && g2[r][c].neighborCount == 0
      ensures Expanded(g2, r, c)
    {
      if g1[r][c].isRevealed {
        assert RevealedFrom(g1[r][c], g2[r][c]);
        ExpandedMono(g1, g2, r, c);
      }
    }
  }

  /** One step from x towards t. */
  function Toward(x: int, t: int): int {
    if x < t then x + 1 else if t < x then x - 1 else x
  }

  /** Chebyshev distance: the number of king moves from (r, c) to (r2, c2). */
  function Dist(r: int, c: int, r2: int, c2: int): nat {
    var dr := if r <= r2 then r2 - r else r - r2;
    var dc := if c <= c2 then c2 - c else c - c2;
    if dr <= dc then dc else dr
  }

  /** On a board with no mine, no flag and only zero counts, a finished
      cascade over a board with nothing revealed that reveals (r, c) reveals
      every cell within distance d of it. */
  lemma {:induction false} RevealedWithin(g0: seq<seq<Cell>>, h: seq<seq<Cell>>, cols: nat, r: int, c: int, d: nat)
    requires IsGrid(g0, |g0|, cols) && ClosedOver(g0, h)
    requires forall r2, c2 :: 0 <= r2 < |g0| && 0 <= c2 < cols ==>
      !g0[r2][c2].isMine && !g0[r2][c2].isFlagged && !g0[r2][c2].isRevealed && g0[r2][c2].neighborCount == 0
    requires 0 <= r < |g0| && 0 <= c < cols && h[r][c].isRevealed
    ensures forall r2, c2 :: 0 <= r2 < |g0| && 0 <= c2 < cols && Dist(r, c, r2, c2) <= d ==> h[r2][c2].isRevealed
  {
    if d > 0 {
      RevealedWithin(g0, h, cols, r, c, d - 1);
      forall r2, c2 | 0 <= r2 < |g0| && 0 <= c2 < cols && Dist(r, c, r2, c2) == d
        ensures h[r2][c2].isRevealed
      {
        var r3, c3 := Toward(r2, r), Toward(c2, c);
        assert Dist(r, c, r3, c3) <= d - 1;
        assert RevealedFrom(g0[r3][c3], h[r3][c3]) && RevealedFrom(g0[r2][c2], h[r2][c2]);
        assert Expanded(h, r3, c3);
        assert Adjacent(r3, c3, r2, c2);
      }
    }
  }

  /** On a board without mines whose cells are all hidden and unflagged, one
      finished cascade from any revealed cell reveals the whole board. */
  lemma MineFreeRevealsAll(g0: seq<seq<Cell>>, h: seq<seq<Cell>>, cfg: Config, r: int, c: int)
    requires Consistent(g0, cfg) && cfg.mines == 0
    requires Count(g0, Revealed) == 0 && Count(g0, Flagged) == 0
    requires ClosedOver(g0, h) && InBounds(cfg.rows, cfg.cols, r, c) && h[r][c].isRevealed
    ensures forall r2, c2 :: InBounds(cfg.rows, cfg.cols, r2, c2) ==> h[r2][c2].isRevealed
    ensures AllSafeRevealed(h)
  {
    CountZero(g0, Mine);
    CountZero(g0, Revealed);
    CountZero(g0, Flagged);
    forall r2, c2 | InBounds(cfg.rows, cfg.cols, r2, c2) ensures g0[r2][c2].neighborCount == 0 {
      NoAdjacentMine(g0, r2, c2);
    }
    RevealedWithin(g0, h, cfg.cols, r, c, cfg.rows + cfg.cols);
  }

  // ---------------------------------------------------------------------------
  // Flags

  /** A player action on (r, c) is not ignored: the game is on and the cell
      is hidden and, for the primary action, unflagged. */
  predicate Clickable(g: seq<seq<Cell>>, s: GameState, r: nat, c: nat)
    requires r < |g| && c < |g[r]|
  {
    s == Playing && !g[r][c].isRevealed && !g[r][c].isFlagged
  }

  /** The grid with the flag of (r, c) flipped. */
  function ToggleFlag(g: seq<seq<Cell>>, r: nat, c: nat): (h: seq<seq<Cell>>)
    requires r < |g| && c < |g[r]|
    ensures SameShape(g, h) && h[r][c].isFlagged == !g[r][c].isFlagged
  {
    g[r := g[r][c := g[r][c].(isFlagged := !g[r][c].isFlagged)]]
  }

  /** Flipping the flag of a hidden cell keeps the board invariants and the
      state's view of the board, and moves the flag count by one in the
      direction of the flip. */
  lemma ToggleKeeps(g: seq<seq<Cell>>, r: nat, c: nat, cfg: Config, s: GameState)
    requires Consistent(g, cfg) && Agrees(g, s)
    requires r < |g| && c < |g[r]| && !g[r][c].isRevealed
    ensures Consistent(ToggleFlag(g, r, c), cfg)
    ensures Agrees(ToggleFlag(g, r, c), s) || s == Lost
    ensures Count(ToggleFlag(g, r, c), Flagged) ==
      Count(g, Flagged) + (if g[r][c].isFlagged then -1 else 1)
  {
    var h := ToggleFlag(g, r, c);
    assert forall r2, c2 :: 0 <= r2 < |g| && 0 <= c2 < |g[r2]| ==>
      h[r2][c2] == if r2 == r && c2 == c then g[r][c].(isFlagged := !g[r][c].isFlagged) else g[r2][c2];
    CountUpdate(g, Flagged, r, c, h[r][c]);
    assert SameLayout(g, h) && NoRevealedFlag(h);
    LayoutKept(g, h, cfg);
    if s != Lost {
      assert NoMineRevealed(h);
    }
  }

  // ---------------------------------------------------------------------------
  // End of game

  /** A cell as the loss screen leaves it: an unflagged mine is shown. */
  function Exposed(x: Cell): (y: Cell)
    ensures y.isRevealed == (x.isRevealed || (x.isMine && !x.isFlagged))
    ensures y.(isRevealed := x.isRevealed) == x
  {
    if x.isMine && !x.isFlagged then x.(isRevealed := true) else x
  }

  /** `h` is `g` as the loss screen leaves it. */
  predicate ExposedFrom(g: seq<seq<Cell>>, h: seq<seq<Cell>>) {
    SameShape(g, h) && forall r, c :: 0 <= r < |g| && 0 <= c < |g[r]| ==> h[r][c] == Exposed(g[r][c])
  }

  /** Exposing the mines keeps the board invariants and the flags, and leaves
      every unflagged mine revealed. */
  lemma ExposeKeeps(g: seq<seq<Cell>>, h: seq<seq<Cell>>, cfg: Config)
    requires Consistent(g, cfg) && ExposedFrom(g, h)
    ensures Consistent(h, cfg) && MinesExposed(h)
    ensures Count(h, Flagged) == Count(g, Flagged)
  {
    CountSame(g, h, Flagged);
    LayoutKept(g, h, cfg);
  }

  /** While no mine is revealed, the win test "revealed cells number
      rows*cols - mines" holds exactly when every safe cell is revealed. */
  lemma WinIffAllSafeRevealed(g: seq<seq<Cell>>, cfg: Config)
    requires Consistent(g, cfg) && NoMineRevealed(g)
    ensures Count(g, Revealed) == cfg.rows * cfg.cols - cfg.mines <==> AllSafeRevealed(g)
  {
    CountSafe(g, cfg.rows, cfg.cols);
    CountMono(g, g, Revealed, Safe);
    if AllSafeRevealed(g) {
      CountMono(g, g, Safe, Revealed);
    }
  }

  // ---------------------------------------------------------------------------
  // Mine placement and neighbour counts

  /** The positions among a sequence of sampled (row, col) draws. */
  function Drawn(draws: seq<(int, int)>): set<(int, int)> {
    set k | 0 <= k < |draws| :: draws[k]
  }

  /** The sampled draws are usable by placeMines on a `cfg` board: every draw
      is on the grid, and at least `cfg.mines` distinct positions were drawn,
      so the rejection loop stops within these draws. */
  predicate DrawsFit(cfg: Config, draws: seq<(int, int)>) {
    && (forall k :: 0 <= k < |draws| ==> InBounds(cfg.rows, cfg.cols, draws[k].0, draws[k].1))
    && cfg.mines <= |Drawn(draws)|
  }

  /** The positions drawn at index `i` or later that hold no mine in `g`. */
  function Fresh(g: seq<seq<Cell>>, draws: seq<(int, int)>, i: nat): set<(int, int)> {
    set k | i <= k < |draws| && 0 <= draws[k].0 < |g| && 0 <= draws[k].1 < |g[draws[k].0]|
      && !g[draws[k].0][draws[k].1].isMine :: draws[k]
  }

  /** The grid with a mine placed at (r, c). */
  function PlaceMine(g: seq<seq<Cell>>, r: nat, c: nat): (h: seq<seq<Cell>>)
    requires r < |g| && c < |g[r]|
    ensures SameShape(g, h) && h[r][c].isMine
  {
    g[r := g[r][c := g[r][c].(isMine := true)]]
  }

  /** `h` is `g` with mines added at some drawn positions and nothing else changed. */
  predicate MinedFrom(g: seq<seq<Cell>>, h: seq<seq<Cell>>, draws: seq<(int, int)>) {
    && SameShape(g, h)
    && forall r, c :: 0 <= r < |g| && 0 <= c < |g[r]| ==>
      h[r][c] == g[r][c] || (h[r][c] == g[r][c].(isMine := true) && (r, c) in Drawn(draws))
  }

  /** Placing a mine at a drawn position of a cell without one extends `MinedFrom`. */
  lemma MinedStep(g0: seq<seq<Cell>>, g: seq<seq<Cell>>, draws: seq<(int, int)>, i: nat)
    requires MinedFrom(g0, g, draws) && i < |draws|
    requires 0 <= draws[i].0 < |g| && 0 <= draws[i].1 < |g[draws[i].0]|
    requires !g[draws[i].0][draws[i].1].isMine
    ensures MinedFrom(g0, PlaceMine(g, draws[i].0, draws[i].1), draws)
  {
    var r, c := draws[i].0, draws[i].1;
    assert (r, c) in Drawn(draws);
    assert g[r][c] == g0[r][c];
  }

  /** On a board without mines every drawn position is fresh. */
  lemma FreshBlank(cfg: Config, draws: seq<(int, int)>)
    requires forall k :: 0 <= k < |draws| ==> InBounds(cfg.rows, cfg.cols, draws[k].0, draws[k].1)
    ensures Fresh(BlankGrid(cfg.rows, cfg.cols), draws, 0) == Drawn(draws)
  {
  }

  /** With no draws left there is no fresh position. */
  lemma FreshEnd(g: seq<seq<Cell>>, draws: seq<(int, int)>)
    ensures Fresh(g, draws, |draws|) == {}
  {
  }

  /** A draw that hits a mine is rejected: the fresh positions stay as they were. */
  lemma FreshSkip(g: seq<seq<Cell>>, draws: seq<(int, int)>, i: nat)
    requires i < |draws| && 0 <= draws[i].0 < |g| && 0 <= draws[i].1 < |g[draws[i].0]|
    requires g[draws[i].0][draws[i].1].isMine
    ensures Fresh(g, draws, i + 1) == Fresh(g, draws, i)
  {
    forall p | p in Fresh(g, draws, i) ensures p in Fresh(g, draws, i + 1) {
      var k :| i <= k < |draws| && draws[k] == p && 0 <= draws[k].0 < |g| && 0 <= draws[k].1 < |g[draws[k].0]|
        && !g[draws[k].0][draws[k].1].isMine;
      assert k != i;
    }
  }

  /** A draw that finds no mine is accepted: placing the mine removes exactly
      that position from the fresh ones. */
  lemma FreshTake(g: seq<seq<Cell>>, draws: seq<(int, int)>, i: nat)
    requires i < |draws| && 0 <= draws[i].0 < |g| && 0 <= draws[i].1 < |g[draws[i].0]|
    requires !g[draws[i].0][draws[i].1].isMine
    ensures draws[i] in Fresh(g, draws, i)
    ensures Fresh(PlaceMine(g, draws[i].0, draws[i].1), draws, i + 1) == Fresh(g, draws, i) - {draws[i]}
    ensures |Fresh(PlaceMine(g, draws[i].0, draws[i].1), draws, i + 1)| == |Fresh(g, draws, i)| - 1
  {
    var h := PlaceMine(g, draws[i].0, draws[i].1);
    forall p | p in Fresh(g, draws, i) - {draws[i]} ensures p in Fresh(h, draws, i + 1) {
      var k :| i <= k < |draws| && draws[k] == p && 0 <= draws[k].0 < |g| && 0 <= draws[k].1 < |g[draws[k].0]|
        && !g[draws[k].0][draws[k].1].isMine;
      assert k != i;
    }
  }

  /** A cell as calculateNeighborCounts leaves it: a safe cell gets its
      adjacent-mine count, a mine is left alone. */
  function Counted(g: seq<seq<Cell>>, r: int, c: int): (y: Cell)
    requires 0 <= r < |g| && 0 <= c < |g[r]|
    ensures y.(neighborCount := g[r][c].neighborCount) == g[r][c]
    ensures !y.isMine ==> y.neighborCount == AdjacentMines(g, r, c)
  {
    if g[r][c].isMine then g[r][c] else g[r][c].(neighborCount := AdjacentMines(g, r, c))
  }

  /** The board createBoard builds: blank cells, mines only at drawn
      positions and exactly `cfg.mines` of them, then the neighbour counts.
      It satisfies the board invariants, nothing is revealed or flagged, and
      every mine keeps the count 0 it started with. */
  lemma BuiltBoard(cfg: Config, draws: seq<(int, int)>, g1: seq<seq<Cell>>, g2: seq<seq<Cell>>)
    requires IsGrid(g1, cfg.rows, cfg.cols) && IsGrid(g2, cfg.rows, cfg.cols)
    requires Count(g1, Mine) == cfg.mines
    requires MinedFrom(BlankGrid(cfg.rows, cfg.cols), g1, draws)
    requires forall r, c :: InBounds(cfg.rows, cfg.cols, r, c) ==> g2[r][c] == Counted(g1, r, c)
    ensures Consistent(g2, cfg)
    ensures forall r, c :: InBounds(cfg.rows, cfg.cols, r, c) ==>
      && !g2[r][c].isRevealed && !g2[r][c].isFlagged
      && (g2[r][c].isMine ==> g2[r][c].neighborCount == 0 && (r, c) in Drawn(draws))
  {
    CountSame(g1, g2, Mine);
    SameMinesSameCounts(g1, g2);
  }
}
